/**
 * The staggering gate in `transcribe_chunk`: before loading its model, the worker for
 * chunk k > 1 polls chunk k - 1's progress file until it reads a record showing at
 * least 2%. Chunk 1, or a worker with no progress directory, proceeds at once.
 */
module Stagger {
  import opened Wrappers
  import opened Progress

  /** The threshold, in percent, the predecessor must reach. */
  const Threshold := 2

  /** How the wait ended within the reads considered: after `polls` reads of the
      predecessor's file, or not yet (the loop would keep polling). */
  datatype WaitOutcome = Proceed(polls: nat) | StillWaiting

  /** Whether the worker waits at all: `chunk_num > 1 and temp_dir`. */
  predicate MustWait(chunk: int, hasTempDir: bool) { chunk > 1 && hasTempDir }

  /** One read lets the worker go: a readable record at or above the threshold.
      A missing or unreadable file keeps it waiting. */
  predicate Opens(o: Observation) { o.Seen? && o.percent >= Threshold }

  /** The `while True` poll over the successive reads of the predecessor's file. */
  method AwaitPredecessor(chunk: int, hasTempDir: bool, polls: seq<Observation>) returns (w: WaitOutcome)
    ensures !MustWait(chunk, hasTempDir) ==> w == Proceed(0)
    ensures MustWait(chunk, hasTempDir) && w.Proceed? ==>
      1 <= w.polls <= |polls| && Opens(polls[w.polls - 1]) &&
      forall j :: 0 <= j < w.polls - 1 ==> !Opens(polls[j])
    ensures MustWait(chunk, hasTempDir) ==> (w == StillWaiting <==> forall j :: 0 <= j < |polls| ==> !Opens(polls[j]))
  {
    if !MustWait(chunk, hasTempDir) {
      return Proceed(0);
    }
    var i := 0;
    while i < |polls|
      invariant 0 <= i <= |polls|
      invariant forall j :: 0 <= j < i ==> !Opens(polls[j])
    {
      if polls[i].Seen? && polls[i].percent >= Threshold {
        return Proceed(i + 1);
      }
      i := i + 1;
    }
    return StillWaiting;
  }

  /** The records a worker writes before its model is loaded show 0%, so they never
      release its successor. */
  lemma LoadingKeepsSuccessorWaiting(chunk: int, status: Status)
    ensures !Opens(Seen(WorkerRecord(chunk, 0, 1, status).percent, status))
  {
  }

  /** A counter record releases the successor exactly when at least a fiftieth of the
      predecessor's frames are processed. */
  lemma CaptureOpensAtFiftieth(chunk: int, n: int, total: int)
    requires total > 0 && n >= 0
    ensures Opens(Seen(Snapshot(chunk, n, total).percent, Transcribing)) <==> 50 * n >= total
  {
    PercentAtLeastTwo(n, total);
  }

  /** What the worker writes before its gate and while loading its model, read back by
      its successor: the successor's gate stays shut. */
  method StartWritesKeepGateShut(file: ProgressFile, chunk: int, status: Status)
    modifies file
    ensures file.record == Some(WorkerRecord(chunk, 0, 1, status))
    ensures file.Observe() == Seen(0, status) && !Opens(file.Observe())
  {
    WriteWorkerProgress(file, chunk, 0, 1, status);
  }

  /** One `update(k)` of the predecessor's counter, read back by its successor: the gate
      opens exactly when at least a fiftieth of a positive total is done, and never for a
      negative total. */
  method UpdateOpensGate(cap: ProgressCapture, k: int) returns (ok: bool)
    requires cap.file != null && HasTotal(cap.total)
    modifies cap`n, cap.file
    ensures cap.n == Advance(old(cap.n), k, cap.total) && ok
    ensures cap.file.record == Some(Snapshot(cap.chunk, cap.n, cap.total.value))
    ensures 0 <= old(cap.n) && 0 <= k && cap.total.value > 0 ==>
      (Opens(cap.file.Observe()) <==> 50 * cap.n >= cap.total.value)
    ensures cap.total.value < 0 ==> !Opens(cap.file.Observe())
  {
    ok := cap.Update(k);
    if 0 <= old(cap.n) && 0 <= k && cap.total.value > 0 {
      CaptureOpensAtFiftieth(cap.chunk, cap.n, cap.total.value);
    }
  }
}
