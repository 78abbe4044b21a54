/**
 * Progress channels: the record a transcription worker writes into its progress file,
 * the percent rule both writers use, and the counter that mirrors the inference
 * engine's progress hook (`TqdmProgressCapture`) into the file.
 */
module Progress {
  import opened Wrappers

  /** Lifecycle status written into a record. `Running` is the default a writer uses
      when given no status and the default a reader assumes when the field is absent. */
  datatype Status = Starting | LoadingModel | ModelLoaded | Transcribing | Transcribed | Complete | Running

  /** One whole-file record of a progress channel. */
  datatype ProgressRecord = ProgressRecord(chunk: int, current: int, total: int, percent: int, status: Status)

  /** What one read of a progress file finds: no file, a file that cannot be parsed,
      or a record (with the reader's defaults for absent fields already applied). */
  datatype Observation = Missing | Unreadable | Seen(percent: int, status: Status)

  function Min(a: int, b: int): int { if a <= b then a else b }

  /** `int(current / total * 100) if total > 0 else 0`, over integers: the quotient is
      truncated toward zero, as Python's `int` does. */
  function Percent(current: int, total: int): (p: int)
    ensures total <= 0 ==> p == 0
    ensures total > 0 && current >= 0 ==> 0 <= p && p * total <= 100 * current < (p + 1) * total
    ensures total > 0 && current < 0 ==> p <= 0 && -p * total <= -100 * current < (1 - p) * total
    ensures total > 0 && 0 <= current <= total ==> p <= 100
  {
    if total <= 0 then 0
    else if current >= 0 then
      var p := (100 * current) / total;
      HundredBound(p, current, total);
      p
    else -((-100 * current) / total)
  }

  /** Cancelling a positive factor from a strict product inequality. */
  lemma CancelFactor(a: int, b: int, t: int)
    requires t > 0 && a * t < b * t
    ensures a < b
  {
    if a >= b {
      MulNonNegative(a - b, t);
    }
  }

  lemma HundredBound(p: int, current: int, total: int)
    requires total > 0 && p * total <= 100 * current
    ensures current <= total ==> p <= 100
  {
    if current <= total {
      CancelFactor(p, 101, total);
    }
  }

  lemma MulNonNegative(x: int, y: int)
    requires x >= 0 && y >= 0
    ensures x * y >= 0
  {
  }

  /** Percent is monotonic in the count for a fixed total. */
  lemma PercentMonotone(c1: int, c2: int, total: int)
    requires 0 <= c1 <= c2
    ensures Percent(c1, total) <= Percent(c2, total)
  {
    if total > 0 {
      var p1, p2 := Percent(c1, total), Percent(c2, total);
      assert p1 * total < (p2 + 1) * total;
      CancelFactor(p1, p2 + 1, total);
    }
  }

  /** The 2% threshold of the staggering gate, in terms of frames: a record reaches 2%
      exactly when at least a fiftieth of the frames are processed. */
  lemma PercentAtLeastTwo(current: int, total: int)
    requires total > 0 && current >= 0
    ensures Percent(current, total) >= 2 <==> 50 * current >= total
  {
    var p := Percent(current, total);
    if p >= 2 {
      MulNonNegative(p - 2, total);
    } else {
      assert 100 * current < (p + 1) * total;
      MulNonNegative(1 - p, total);
    }
  }

  /** tqdm's `total` is `None` or a number; the code only ever asks whether it is truthy. */
  predicate HasTotal(total: Option<int>) { total.Some? && total.value != 0 }

  /** The counter after `update(k)`: `min(n + k, total)` when there is a total, else `n + k`. */
  function Advance(n: int, k: int, total: Option<int>): (r: int)
    ensures HasTotal(total) ==> r <= total.value && r <= n + k && (r == n + k || r == total.value)
    ensures !HasTotal(total) ==> r == n + k
    ensures 0 <= n && 0 <= k && (total.Some? ==> total.value >= 0) ==> 0 <= r
  {
    if HasTotal(total) then Min(n + k, total.value) else n + k
  }

  function Sum(ks: seq<int>): int
  {
    if ks == [] then 0 else Sum(ks[..|ks| - 1]) + ks[|ks| - 1]
  }

  /** The counter after a series of updates, one after the other. */
  function AdvanceAll(n: int, ks: seq<int>, total: Option<int>): int
  {
    if ks == [] then n else Advance(AdvanceAll(n, ks[..|ks| - 1], total), ks[|ks| - 1], total)
  }

  /** Non-negative updates from a count within the total add up and then saturate:
      the counter is `min(n + sum, total)`, however the increments are split. */
  lemma {:induction false} AdvanceAllSaturates(n: int, ks: seq<int>, total: Option<int>)
    requires forall i :: 0 <= i < |ks| ==> ks[i] >= 0
    requires HasTotal(total) ==> n <= total.value
    ensures HasTotal(total) ==> AdvanceAll(n, ks, total) == Min(n + Sum(ks), total.value)
    ensures !HasTotal(total) ==> AdvanceAll(n, ks, total) == n + Sum(ks)
  {
    if ks != [] {
      AdvanceAllSaturates(n, ks[..|ks| - 1], total);
    }
  }

  /** The record `_write_progress` writes for count `n` of `total`. */
  function Snapshot(chunk: int, n: int, total: int): (r: ProgressRecord)
    ensures r.chunk == chunk && r.current == n && r.total == total && r.status == Transcribing
    ensures r.percent == Percent(n, total)
  {
    ProgressRecord(chunk, n, total, Percent(n, total), Transcribing)
  }

  /** The record the worker's own `write_progress(current, total, status)` writes. */
  function WorkerRecord(chunk: int, current: int, total: int, status: Status): (r: ProgressRecord)
    ensures r.chunk == chunk && r.current == current && r.total == total && r.status == status
    ensures r.percent == Percent(current, total)
  {
    ProgressRecord(chunk, current, total, Percent(current, total), status)
  }

  /** The worker writes `(0, 1)` while starting and loading its model, and `(1, 1)` once
      transcribed: 0% and 100%. */
  lemma WorkerMilestones(chunk: int)
    ensures WorkerRecord(chunk, 0, 1, Starting).percent == 0
    ensures WorkerRecord(chunk, 0, 1, LoadingModel).percent == 0
    ensures WorkerRecord(chunk, 0, 1, ModelLoaded).percent == 0
    ensures WorkerRecord(chunk, 1, 1, Transcribed).percent == 100
    ensures WorkerRecord(chunk, 1, 1, Complete).percent == 100
  {
  }

  /** A progress file. `Overwrite` models a write that has completed: opening with 'w'
      truncates the file before the record is dumped, so a read made while a write is in
      progress can meet an empty or partial file; such a read is the `Unreadable`
      observation, which the readers swallow. */
  class ProgressFile {
    var record: Option<ProgressRecord>

    constructor ()
      ensures record == None
    {
      record := None;
    }

    method Overwrite(r: ProgressRecord)
      modifies this
      ensures record == Some(r)
    {
      record := Some(r);
    }

    /** What a read made between writes finds: nothing before the first write, and
        afterwards the percent and status of the last record written. */
    function Observe(): (o: Observation)
      reads this
      ensures record.None? <==> o.Missing?
      ensures record.Some? ==> o == Seen(record.value.percent, record.value.status)
    {
      match record
      case None => Missing
      case Some(r) => Seen(r.percent, r.status)
    }
  }

  /** The worker's `write_progress`: writes only when there is a progress file. */
  method WriteWorkerProgress(file: ProgressFile?, chunk: int, current: int, total: int, status: Status)
    modifies file
    ensures file != null ==> file.record == Some(WorkerRecord(chunk, current, total, status))
  {
    if file != null {
      file.Overwrite(WorkerRecord(chunk, current, total, status));
    }
  }

  /** The progress counter handed to the inference engine in place of its own bar. */
  class ProgressCapture {
    const file: ProgressFile?
    const chunk: int
    const total: Option<int>
    var n: int

    /** The counter never passes a truthy total. This is a property the class is proved to
        establish, not a precondition of its methods: the constructor establishes it when
        the total is not negative, and `Update` restores it whatever held before. */
    ghost predicate Valid()
      reads this
    {
      HasTotal(total) ==> n <= total.value
    }

    /** Starts at zero and writes the initial record. */
    constructor (file: ProgressFile?, chunk: int, total: Option<int>)
      modifies file
      ensures (total.Some? ==> total.value >= 0) ==> Valid()
      ensures this.file == file && this.chunk == chunk && this.total == total && n == 0
      ensures file != null && HasTotal(total) ==> file.record == Some(Snapshot(chunk, 0, total.value))
      ensures file != null && !HasTotal(total) ==> file.record == old(file.record)
    {
      this.file := file;
      this.chunk := chunk;
      this.total := total;
      n := 0;
      new;
      WriteProgress();
    }

    /** `_write_progress`: nothing is written unless there is a file and a truthy total. */
    method WriteProgress()
      modifies file
      ensures file != null && HasTotal(total) ==> file.record == Some(Snapshot(chunk, n, total.value))
      ensures file != null && !HasTotal(total) ==> file.record == old(file.record)
    {
      if file != null && HasTotal(total) {
        file.Overwrite(Snapshot(chunk, n, total.value));
      }
    }

    /** `update(n=1)`: advance the counter, clamped at the total, then write the record. */
    method Update(k: int := 1) returns (ok: bool)
      modifies this`n, file
      ensures Valid() && ok
      ensures n == Advance(old(n), k, total)
      ensures file != null && HasTotal(total) ==> file.record == Some(Snapshot(chunk, n, total.value))
      ensures file != null && !HasTotal(total) ==> file.record == old(file.record)
    {
      n := Advance(n, k, total);
      WriteProgress();
      ok := true;
    }

    /** `close()`: the counter stays where it is and the record is written once more. */
    method Close()
      modifies file
      ensures n == old(n)
      ensures file != null && HasTotal(total) ==> file.record == Some(Snapshot(chunk, n, total.value))
      ensures file != null && !HasTotal(total) ==> file.record == old(file.record)
    {
      WriteProgress();
    }
  }

  /** Every record the counter writes from a non-negative count has a percent in 0..100. */
  lemma SnapshotPercentInRange(chunk: int, n: int, total: Option<int>)
    requires HasTotal(total) && 0 <= n && n <= total.value
    ensures 0 <= Snapshot(chunk, n, total.value).percent <= 100
  {
  }
}
