/**
 * Chunk planning for `split_video_into_chunks`: N chunks of the source, chunk i
 * starting at (i - 1) * D / N, every chunk but the last bounded to D / N, the last
 * running to the end of the source. Durations are reals, not floats.
 */
module ChunkPlan {
  import opened Wrappers

  /** One planned chunk; `duration == None` means "to the end of the source" (no `-t`). */
  datatype Chunk = Chunk(index: int, start: real, duration: Option<real>)

  /** Why no plan is produced: the duration probe gave nothing (the method returns
      False), `duration / 0` raises, or a thread pool of non-positive size is refused. */
  datatype PlanError = DurationUnknown | ZeroChunks | NegativeWorkers

  /** `chunk_duration = duration / num_chunks`. */
  function ChunkDuration(duration: real, n: int): real
    requires n != 0
  {
    duration / n as real
  }

  /** `create_chunk(index)`: its start offset and, unless it is the last, its duration. */
  function CreateChunk(index: int, n: int, duration: real): (c: Chunk)
    requires n != 0
    ensures c.index == index
    ensures c.start == (index - 1) as real * ChunkDuration(duration, n)
    ensures c.duration.None? <==> index == n
    ensures c.duration.Some? ==> c.duration.value == ChunkDuration(duration, n)
  {
    var start := (index - 1) as real * ChunkDuration(duration, n);
    if index == n then Chunk(index, start, None)
    else Chunk(index, start, Some(ChunkDuration(duration, n)))
  }

  /** The chunks submitted for `range(1, num_chunks + 1)`, in index order. */
  function Chunks(duration: real, n: int): (cs: seq<Chunk>)
    requires n >= 1
    ensures |cs| == n
    ensures forall i :: 0 <= i < n ==> cs[i] == CreateChunk(i + 1, n, duration)
  {
    seq(n, i requires 0 <= i < n => CreateChunk(i + 1, n, duration))
  }

  /** The whole planning step, from the probed duration and the chunk count. */
  function Plan(probe: Option<real>, n: int): (r: Result<seq<Chunk>, PlanError>)
    ensures probe.None? ==> r == Failure(DurationUnknown)
    ensures probe.Some? && n == 0 ==> r == Failure(ZeroChunks)
    ensures probe.Some? && n < 0 ==> r == Failure(NegativeWorkers)
    ensures r.Success? <==> probe.Some? && n >= 1
    ensures r.Success? ==> |r.value| == n && forall i :: 0 <= i < n ==> r.value[i].index == i + 1
    ensures r.Success? ==> r.value == Chunks(probe.value, n)
  {
    match probe
    case None => Failure(DurationUnknown)
    case Some(d) =>
      if n == 0 then Failure(ZeroChunks)
      else if n < 0 then Failure(NegativeWorkers)
      else Success(Chunks(d, n))
  }

  /** Exactly one chunk is open-ended, the last. */
  lemma OnlyLastIsOpenEnded(duration: real, n: int, i: int)
    requires n >= 1 && 0 <= i < n
    ensures Chunks(duration, n)[i].duration.None? <==> i == n - 1
  {
  }

  lemma MulMonotone(a: real, b: real, c: real)
    requires 0.0 <= a <= b && 0.0 <= c
    ensures a * c <= b * c
  {
    assert b * c - a * c == (b - a) * c;
  }

  /** For a non-negative duration the start offsets never decrease. */
  lemma StartsNonDecreasing(duration: real, n: int, i: int, j: int)
    requires n >= 1 && duration >= 0.0 && 0 <= i <= j < n
    ensures Chunks(duration, n)[i].start <= Chunks(duration, n)[j].start
  {
    MulMonotone(i as real, j as real, ChunkDuration(duration, n));
  }

  /** The bounded durations, added up in chunk order. */
  function BoundedTotal(cs: seq<Chunk>): real
  {
    if cs == [] then 0.0
    else BoundedTotal(cs[..|cs| - 1]) + match cs[|cs| - 1].duration { case None => 0.0 case Some(t) => t }
  }

  lemma {:induction false} PrefixTotal(duration: real, n: int, k: int)
    requires n >= 1 && 0 <= k <= n - 1
    ensures BoundedTotal(Chunks(duration, n)[..k]) == k as real * ChunkDuration(duration, n)
  {
    if k > 0 {
      var cs := Chunks(duration, n);
      assert cs[..k][..k - 1] == cs[..k - 1];
      PrefixTotal(duration, n, k - 1);
    }
  }

  /** The bounded durations add up to the start of the last chunk, so the bounded
      chunks tile [0, last start) with no gap and no overlap. */
  lemma {:induction false} BoundedDurationsReachLastStart(duration: real, n: int)
    requires n >= 1
    ensures BoundedTotal(Chunks(duration, n)) == Chunks(duration, n)[n - 1].start
  {
    var cs := Chunks(duration, n);
    PrefixTotal(duration, n, n - 1);
    assert cs[..n][..n - 1] == cs[..n - 1];
    assert cs[..n] == cs;
  }

  /** Each chunk starts where the previous bounded one ends. */
  lemma ChunksAreContiguous(duration: real, n: int, i: int)
    requires n >= 1 && 0 <= i < n - 1
    ensures Chunks(duration, n)[i].start + Chunks(duration, n)[i].duration.value == Chunks(duration, n)[i + 1].start
  {
  }

  /** One more chunk duration past the last start is the whole source: the open-ended
      last chunk is where any remainder of the source goes. */
  lemma LastChunkReachesEnd(duration: real, n: int)
    requires n >= 1
    ensures Chunks(duration, n)[n - 1].start + ChunkDuration(duration, n) == duration
  {
    var cd := ChunkDuration(duration, n);
    assert cd * n as real == duration;
    assert (n - 1) as real * cd + cd == n as real * cd;
  }

  /** Every flag is set. */
  predicate AllSet(flags: seq<bool>) { forall i :: 0 <= i < |flags| ==> flags[i] }

  /** `split_video_into_chunks` as a whole. `Success(b)` is the boolean it returns: false for
      an unknown duration, and otherwise whether every creation succeeded and every chunk
      file exists. `Failure(e)` is the exception raised before any chunk is made: the
      division by a zero chunk count, or a pool of no workers for a negative one. With a
      positive count there is one creation result and one existence check per chunk. */
  function SplitVideo(probe: Option<real>, n: int, created: seq<bool>, present: seq<bool>): (r: Result<bool, PlanError>)
    requires n >= 1 ==> |created| == n && |present| == n
    ensures probe.None? ==> r == Success(false)
    ensures probe.Some? && n >= 1 ==> r == Success(AllSet(created) && AllSet(present))
    ensures probe.Some? && n <= 0 ==> r.Failure? && Plan(probe, n) == Failure(r.error)
    ensures r == Success(true) <==> Plan(probe, n).Success? && AllSet(created) && AllSet(present)
  {
    match Plan(probe, n)
    case Failure(DurationUnknown) => Success(false)
    case Failure(e) => Failure(e)
    case Success(_) => Success(AllSet(created) && AllSet(present))
  }

  /** Collecting the creation results (in completion order) and then checking that every
      chunk file exists: splitting succeeds only when every creation succeeded and every
      file is present. A creation fails only when the tool could not be run or timed out. */
  method SplitSucceeded(created: seq<bool>, present: seq<bool>) returns (ok: bool)
    ensures ok == (AllSet(created) && AllSet(present))
  {
    var i := 0;
    while i < |created|
      invariant 0 <= i <= |created|
      invariant forall j :: 0 <= j < i ==> created[j]
    {
      if !created[i] {
        return false;
      }
      i := i + 1;
    }
    i := 0;
    while i < |present|
      invariant 0 <= i <= |present|
      invariant forall j :: 0 <= j < i ==> present[j]
    {
      if !present[i] {
        return false;
      }
      i := i + 1;
    }
    return true;
  }
}
