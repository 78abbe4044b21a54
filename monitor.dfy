/**
 * The body of `monitor_progress`: each poll reads one observation per chunk, keeps
 * for every chunk the highest percent seen so far, advances that chunk's bar by the
 * positive difference only, and decides whether every chunk is done. The loop ends
 * only on a poll where the stop flag is set and every chunk is done.
 */
module ProgressMonitor {
  import opened Wrappers
  import opened Progress

  /** A chunk that does not hold up the exit: its file is there and either cannot be
      read or says complete. A missing file, or any other status, holds it up. */
  predicate Settled(o: Observation) { o.Unreadable? || (o.Seen? && o.status == Complete) }

  /** `all_done` of one poll. */
  predicate AllDone(obs: seq<Observation>) { forall i :: 0 <= i < |obs| ==> Settled(obs[i]) }

  /** The new `last_percent[i]` after one observation: the larger of the old value and
      the percent read, when a record was read. */
  function NextPercent(last: int, o: Observation): (r: int)
    ensures r >= last
    ensures o.Seen? ==> r >= o.percent && (r == last || r == o.percent)
    ensures !o.Seen? ==> r == last
  {
    if o.Seen? && o.percent > last then o.percent else last
  }

  function NextPercents(last: seq<int>, obs: seq<Observation>): (r: seq<int>)
    requires |last| == |obs|
    ensures |r| == |last| && forall i :: 0 <= i < |r| ==> r[i] == NextPercent(last[i], obs[i])
  {
    seq(|last|, i requires 0 <= i < |last| => NextPercent(last[i], obs[i]))
  }

  /** A schedule of polls, each with one observation per chunk. */
  ghost predicate WellFormed(schedule: seq<seq<Observation>>, chunks: nat)
  {
    forall t :: 0 <= t < |schedule| ==> |schedule[t]| == chunks
  }

  /** `last_percent` after the polls of a schedule, one after the other. */
  function Replay(last: seq<int>, schedule: seq<seq<Observation>>): (r: seq<int>)
    requires WellFormed(schedule, |last|)
    ensures |r| == |last|
  {
    if schedule == [] then last
    else NextPercents(Replay(last, schedule[..|schedule| - 1]), schedule[|schedule| - 1])
  }

  /** `last_percent` never decreases. */
  lemma {:induction false} ReplayMonotone(last: seq<int>, schedule: seq<seq<Observation>>, i: int)
    requires WellFormed(schedule, |last|) && 0 <= i < |last|
    ensures Replay(last, schedule)[i] >= last[i]
  {
    if schedule != [] {
      ReplayMonotone(last, schedule[..|schedule| - 1], i);
    }
  }

  /** `last_percent` is at least every percent read for that chunk. */
  lemma {:induction false} ReplayCoversObserved(last: seq<int>, schedule: seq<seq<Observation>>, i: int, t: int)
    requires WellFormed(schedule, |last|) && 0 <= i < |last| && 0 <= t < |schedule|
    requires schedule[t][i].Seen?
    ensures Replay(last, schedule)[i] >= schedule[t][i].percent
  {
    var n := |schedule|;
    if t < n - 1 {
      ReplayCoversObserved(last, schedule[..n - 1], i, t);
    }
  }

  /** `last_percent` is the initial value or a percent actually read: together with the
      two lemmas above, it is the maximum of those. */
  lemma {:induction false} ReplayAttained(last: seq<int>, schedule: seq<seq<Observation>>, i: int)
    requires WellFormed(schedule, |last|) && 0 <= i < |last|
    ensures Replay(last, schedule)[i] == last[i] ||
      exists t :: 0 <= t < |schedule| && schedule[t][i].Seen? && Replay(last, schedule)[i] == schedule[t][i].percent
  {
    var n := |schedule|;
    if n > 0 {
      var prefix := schedule[..n - 1];
      ReplayAttained(last, prefix, i);
      if Replay(last, schedule)[i] != Replay(last, prefix)[i] {
        assert schedule[n - 1][i].Seen? && Replay(last, schedule)[i] == schedule[n - 1][i].percent;
      } else if Replay(last, prefix)[i] != last[i] {
        var t :| 0 <= t < |prefix| && prefix[t][i].Seen? && Replay(last, prefix)[i] == prefix[t][i].percent;
        assert schedule[t] == prefix[t];
      }
    }
  }

  /** When every record read is at most 100%, as the writers' records are, the bars
      never pass 100% either. */
  lemma ReplayAtMostHundred(last: seq<int>, schedule: seq<seq<Observation>>, i: int)
    requires WellFormed(schedule, |last|) && 0 <= i < |last| && last[i] <= 100
    requires forall t :: 0 <= t < |schedule| && schedule[t][i].Seen? ==> schedule[t][i].percent <= 100
    ensures Replay(last, schedule)[i] <= 100
  {
    ReplayAttained(last, schedule, i);
  }

  /** A chunk whose file is missing, or whose record is not complete, blocks the exit;
      an unreadable file never does. */
  lemma BlockingChunk(obs: seq<Observation>, i: int)
    requires 0 <= i < |obs|
    ensures obs[i].Missing? || (obs[i].Seen? && obs[i].status != Complete) ==> !AllDone(obs)
    ensures AllDone(obs[i := Unreadable]) <==> forall j :: 0 <= j < |obs| && j != i ==> Settled(obs[j])
  {
    var o := obs[i := Unreadable];
    assert Settled(o[i]);
    assert forall j :: 0 <= j < |obs| && j != i ==> o[j] == obs[j];
  }

  /** A worker's final `complete` record, read back by the monitor: that chunk is settled
      and its read shows 100%. */
  method CompleteWriteSettles(file: ProgressFile, chunk: int)
    modifies file
    ensures file.record == Some(WorkerRecord(chunk, 1, 1, Complete))
    ensures Settled(file.Observe()) && file.Observe() == Seen(100, Complete)
  {
    WriteWorkerProgress(file, chunk, 1, 1, Complete);
  }

  /** The bars and `last_percent` of a monitor over `chunks` chunks (index 0 is chunk 1). */
  class Monitor {
    const chunks: nat
    const lastPercent: array<int>
    const bars: array<int>

    /** Each bar has advanced by exactly the sum of its deltas, which is `last_percent`. */
    ghost predicate Valid()
      reads this, lastPercent, bars
    {
      lastPercent.Length == chunks && bars.Length == chunks && lastPercent != bars &&
      forall i :: 0 <= i < chunks ==> bars[i] == lastPercent[i] && lastPercent[i] >= 0
    }

    /** Fresh bars at 0 and `last_percent` all 0. */
    constructor (n: nat)
      ensures Valid() && chunks == n && fresh(lastPercent) && fresh(bars)
      ensures forall i :: 0 <= i < n ==> lastPercent[i] == 0
    {
      chunks := n;
      lastPercent := new int[n](_ => 0);
      bars := new int[n](_ => 0);
    }

    /** One pass of the `for i in range(1, num_chunks + 1)` loop. */
    method Poll(obs: seq<Observation>) returns (allDone: bool)
      requires Valid() && |obs| == chunks
      modifies lastPercent, bars
      ensures Valid()
      ensures lastPercent[..] == NextPercents(old(lastPercent[..]), obs)
      ensures allDone == AllDone(obs)
    {
      allDone := true;
      for i := 0 to chunks
        invariant forall j :: 0 <= j < i ==> lastPercent[j] == NextPercent(old(lastPercent[j]), obs[j])
        invariant forall j :: i <= j < chunks ==> lastPercent[j] == old(lastPercent[j])
        invariant forall j :: 0 <= j < chunks ==> bars[j] == lastPercent[j] && lastPercent[j] >= 0
        invariant allDone == forall j :: 0 <= j < i ==> Settled(obs[j])
      {
        match obs[i]
        case Missing =>
          allDone := false;
        case Unreadable =>
        case Seen(percent, status) =>
          if percent > lastPercent[i] {
            var delta := percent - lastPercent[i];
            bars[i] := bars[i] + delta;
            lastPercent[i] := percent;
          }
          if status != Complete {
            allDone := false;
          }
      }
    }

    /** The `while True` loop over a finite schedule of polls, `stopSet[t]` being the
        state of the stop flag at poll t. Returns the poll it exits after, or None when
        the schedule runs out first; `last_percent` reflects every poll made. */
    method Run(schedule: seq<seq<Observation>>, stopSet: seq<bool>) returns (exit: Option<nat>)
      requires Valid() && |stopSet| == |schedule| && WellFormed(schedule, chunks)
      modifies lastPercent, bars
      ensures Valid()
      ensures exit.Some? ==> exit.value < |schedule| && stopSet[exit.value] && AllDone(schedule[exit.value])
      ensures exit.Some? ==> forall t :: 0 <= t < exit.value ==> !(stopSet[t] && AllDone(schedule[t]))
      ensures exit.None? ==> forall t :: 0 <= t < |schedule| ==> !(stopSet[t] && AllDone(schedule[t]))
      ensures exit.Some? ==> lastPercent[..] == Replay(old(lastPercent[..]), schedule[..exit.value + 1])
      ensures exit.None? ==> lastPercent[..] == Replay(old(lastPercent[..]), schedule)
    {
      var t := 0;
      while t < |schedule|
        invariant 0 <= t <= |schedule|
        invariant Valid()
        invariant forall s :: 0 <= s < t ==> !(stopSet[s] && AllDone(schedule[s]))
        invariant lastPercent[..] == Replay(old(lastPercent[..]), schedule[..t])
      {
        assert schedule[..t + 1][..t] == schedule[..t];
        var allDone := Poll(schedule[t]);
        if stopSet[t] && allDone {
          return Some(t);
        }
        t := t + 1;
      }
      assert schedule[..t] == schedule;
      return None;
    }
  }
}
