/**
 * Transcript text: the per-chunk file a worker writes from the engine's segments,
 * the collection of worker results in completion order, and the final merge of the
 * chunk files in index order.
 */
module Transcript {
  import opened Wrappers
  import opened ChunkPlan

  /** Python's `str.isspace`, the set of characters `str.strip()` removes. */
  predicate IsSpace(c: char)
  {
    c == ' ' || ('\t' <= c <= '\r') || ('\U{1c}' <= c <= '\U{1f}') || c == '\U{85}' || c == '\U{a0}' ||
    c == '\U{1680}' || ('\U{2000}' <= c <= '\U{200a}') || c == '\U{2028}' || c == '\U{2029}' ||
    c == '\U{202f}' || c == '\U{205f}' || c == '\U{3000}'
  }

  predicate AllSpace(s: string) { forall k :: 0 <= k < |s| ==> IsSpace(s[k]) }

  /** `s` with its leading whitespace removed. */
  function TrimStart(s: string): string
  {
    if |s| > 0 && IsSpace(s[0]) then TrimStart(s[1..]) else s
  }

  /** `s` with its trailing whitespace removed. */
  function TrimEnd(s: string): string
  {
    if |s| > 0 && IsSpace(s[|s| - 1]) then TrimEnd(s[..|s| - 1]) else s
  }

  /** `str.strip()`: never longer than `s`, and neither starting nor ending with whitespace
      (`StripSpec` adds when it is empty). */
  function Strip(s: string): (r: string)
    ensures |r| <= |s|
    ensures r != [] ==> !IsSpace(r[0]) && !IsSpace(r[|r| - 1])
  {
    TrimStartSpec(s);
    TrimEndSpec(TrimStart(s));
    TrimEnd(TrimStart(s))
  }

  /** TrimStart leaves a suffix of `s`, drops only whitespace, and stops at the first
      character that is not whitespace. */
  lemma {:induction false} TrimStartSpec(s: string)
    ensures |TrimStart(s)| <= |s| && TrimStart(s) == s[|s| - |TrimStart(s)|..]
    ensures AllSpace(s[..|s| - |TrimStart(s)|])
    ensures TrimStart(s) != [] ==> !IsSpace(TrimStart(s)[0])
  {
    if |s| > 0 && IsSpace(s[0]) {
      TrimStartSpec(s[1..]);
      var r := TrimStart(s);
      assert s[..|s| - |r|] == [s[0]] + s[1..][..|s| - 1 - |r|];
    }
  }

  /** TrimEnd leaves a prefix of `s`, drops only whitespace, and stops at the last
      character that is not whitespace. */
  lemma {:induction false} TrimEndSpec(s: string)
    ensures |TrimEnd(s)| <= |s| && TrimEnd(s) == s[..|TrimEnd(s)|]
    ensures AllSpace(s[|TrimEnd(s)|..])
    ensures TrimEnd(s) != [] ==> !IsSpace(TrimEnd(s)[|TrimEnd(s)| - 1])
  {
    if |s| > 0 && IsSpace(s[|s| - 1]) {
      TrimEndSpec(s[..|s| - 1]);
      var r := TrimEnd(s);
      assert s[|r|..] == s[..|s| - 1][|r|..] + [s[|s| - 1]];
    }
  }

  /** Strip gives nothing exactly for an all-whitespace text. */
  lemma StripSpec(s: string)
    ensures Strip(s) == [] <==> AllSpace(s)
  {
    var t := TrimStart(s);
    var r := TrimEnd(t);
    TrimStartSpec(s);
    TrimEndSpec(t);
    assert s == s[..|s| - |t|] + t;
    assert t == r + t[|r|..];
    assert r == [] ==> t == [] by {
      if r == [] { assert t[|r|..] == t; }
    }
    assert r == [] ==> s[..|s| - |t|] == s;
  }

  lemma TrimStartPadded(p: string, t: string)
    requires AllSpace(p) && (t == [] || !IsSpace(t[0]))
    ensures TrimStart(p + t) == t
    decreases |p|
  {
    if p != [] {
      assert (p + t)[1..] == p[1..] + t;
      TrimStartPadded(p[1..], t);
    } else {
      assert p + t == t;
    }
  }

  lemma TrimEndPadded(t: string, q: string)
    requires AllSpace(q) && (t == [] || !IsSpace(t[|t| - 1]))
    ensures TrimEnd(t + q) == t
    decreases |q|
  {
    if q != [] {
      assert (t + q)[..|t + q| - 1] == t + q[..|q| - 1];
      TrimEndPadded(t, q[..|q| - 1]);
    } else {
      assert t + q == t;
    }
  }

  /** Whitespace around a text with no whitespace at either end is exactly what strip
      removes. */
  lemma StripPadded(p: string, t: string, q: string)
    requires AllSpace(p) && AllSpace(q) && t != [] && !IsSpace(t[0]) && !IsSpace(t[|t| - 1])
    ensures Strip(p + t + q) == t
  {
    assert p + t + q == p + (t + q);
    assert (t + q)[0] == t[0];
    TrimStartPadded(p, t + q);
    TrimEndPadded(t, q);
  }

  /** A text with no whitespace at either end is left as it is. */
  lemma StripClean(t: string)
    requires t != [] && !IsSpace(t[0]) && !IsSpace(t[|t| - 1])
    ensures Strip(t) == t
  {
    assert [] + t + [] == t;
    StripPadded([], t, []);
  }

  /** Stripping twice is stripping once. */
  lemma StripIdempotent(s: string)
    ensures Strip(Strip(s)) == Strip(s)
  {
    var r := Strip(s);
    StripSpec(s);
    if r != [] {
      StripClean(r);
    } else {
      assert Strip(r) == TrimEnd(TrimStart([]));
    }
  }

  /** One transcribed segment; `text` is absent when the engine gave none. */
  datatype Segment = Segment(text: Option<string>)

  /** What the engine returns; `segments` is absent when it gave none. */
  datatype TranscribeResult = TranscribeResult(segments: Option<seq<Segment>>)

  /** `segment.get("text", "").strip()`. */
  function CleanText(seg: Segment): string
  {
    Strip(match seg.text { case None => "" case Some(t) => t })
  }

  /** `result.get("segments", [])`. */
  function SegmentsOf(result: TranscribeResult): seq<Segment>
  {
    match result.segments { case None => [] case Some(segs) => segs }
  }

  /** The cleaned texts of the segments, in order. */
  function CleanTexts(segs: seq<Segment>): (r: seq<string>)
    ensures |r| == |segs| && forall i :: 0 <= i < |segs| ==> r[i] == CleanText(segs[i])
  {
    seq(|segs|, i requires 0 <= i < |segs| => CleanText(segs[i]))
  }

  /** What one cleaned text adds to the chunk file: itself and a newline, or nothing. */
  function Line(text: string): string
  {
    if text == [] then [] else text + "\n"
  }

  /** The lines written for a list of cleaned texts. */
  function Lines(texts: seq<string>): string
  {
    if texts == [] then [] else Line(texts[0]) + Lines(texts[1..])
  }

  /** The contents of `chunk_<i>.txt` for a list of segments. */
  function ChunkText(segs: seq<Segment>): string
  {
    Lines(CleanTexts(segs))
  }

  /** The lines of a list are the lines of its parts, in order. */
  lemma {:induction false} LinesAppend(a: seq<string>, b: seq<string>)
    ensures Lines(a + b) == Lines(a) + Lines(b)
  {
    if a == [] {
      assert a + b == b;
    } else {
      assert (a + b)[1..] == a[1..] + b;
      assert (a + b)[0] == a[0];
      LinesAppend(a[1..], b);
    }
  }

  lemma LinesSingle(x: string)
    ensures Lines([x]) == Line(x)
  {
    assert [x][1..] == [];
  }

  lemma LinesStep(texts: seq<string>, i: int)
    requires 0 <= i < |texts|
    ensures Lines(texts[..i + 1]) == Lines(texts[..i]) + Line(texts[i])
  {
    assert texts[..i + 1] == texts[..i] + [texts[i]];
    LinesAppend(texts[..i], [texts[i]]);
    LinesSingle(texts[i]);
  }

  /** The writing loop of `transcribe_chunk`: one write per segment with non-empty text. */
  method WriteChunkTranscript(result: TranscribeResult) returns (contents: string)
    ensures contents == ChunkText(SegmentsOf(result))
  {
    var segs := SegmentsOf(result);
    ghost var texts := CleanTexts(segs);
    contents := [];
    var i := 0;
    while i < |segs|
      invariant 0 <= i <= |segs|
      invariant contents == Lines(texts[..i])
    {
      var text := CleanText(segs[i]);
      assert text == texts[i];
      LinesStep(texts, i);
      if text != [] {
        contents := contents + (text + "\n");
      }
      i := i + 1;
    }
    assert texts[..i] == texts;
  }

  /** Transcribing segments in two runs gives the two chunk texts one after the other. */
  lemma ChunkTextAppend(a: seq<Segment>, b: seq<Segment>)
    ensures ChunkText(a + b) == ChunkText(a) + ChunkText(b)
  {
    assert CleanTexts(a + b) == CleanTexts(a) + CleanTexts(b);
    LinesAppend(CleanTexts(a), CleanTexts(b));
  }

  lemma {:induction false} LinesEmpty(texts: seq<string>)
    ensures Lines(texts) == [] <==> forall i :: 0 <= i < |texts| ==> texts[i] == []
  {
    if texts != [] {
      LinesEmpty(texts[1..]);
      assert forall i :: 1 <= i < |texts| ==> texts[1..][i - 1] == texts[i];
    }
  }

  /** A chunk file is empty exactly when every segment's text strips to nothing. */
  lemma ChunkTextEmpty(segs: seq<Segment>)
    ensures ChunkText(segs) == [] <==> forall i :: 0 <= i < |segs| ==> CleanText(segs[i]) == []
  {
    LinesEmpty(CleanTexts(segs));
  }

  /** A non-empty chunk file ends with a newline. */
  lemma {:induction false} LinesEndWithNewline(texts: seq<string>)
    requires Lines(texts) != []
    ensures Lines(texts)[|Lines(texts)| - 1] == '\n'
  {
    if Lines(texts[1..]) != [] {
      LinesEndWithNewline(texts[1..]);
    }
  }

  /** A segment on its own gives its stripped text and a newline, or nothing. */
  lemma ChunkTextSingle(seg: Segment)
    ensures ChunkText([seg]) == Line(CleanText(seg))
  {
    assert CleanTexts([seg]) == [CleanText(seg)];
    LinesSingle(CleanText(seg));
  }

  /** The final file: the chunk transcripts of chunks 1..n that exist, in index order. */
  function Merged(n: int, transcripts: map<int, string>): string
    decreases n
  {
    if n <= 0 then [] else Merged(n - 1, transcripts) + (if n in transcripts then transcripts[n] else [])
  }

  /** The chunks warned about as missing, in index order. */
  function MissingChunks(n: int, transcripts: map<int, string>): seq<int>
    decreases n
  {
    if n <= 0 then [] else MissingChunks(n - 1, transcripts) + (if n in transcripts then [] else [n])
  }

  /** The combining loop of `process_video`: append each existing chunk file, warn about
      each missing one, and go on. */
  method CombineTranscripts(n: int, transcripts: map<int, string>) returns (contents: string, warnings: seq<int>)
    ensures contents == Merged(n, transcripts)
    ensures warnings == MissingChunks(n, transcripts)
  {
    contents, warnings := [], [];
    var i := 1;
    while i <= n
      invariant 1 <= i <= (if n >= 1 then n + 1 else 1)
      invariant contents == Merged(i - 1, transcripts)
      invariant warnings == MissingChunks(i - 1, transcripts)
    {
      if i in transcripts {
        contents := contents + transcripts[i];
      } else {
        warnings := warnings + [i];
      }
      i := i + 1;
    }
    if n >= 1 {
      assert i - 1 == n;
    } else {
      assert Merged(i - 1, transcripts) == [] == Merged(n, transcripts);
      assert MissingChunks(i - 1, transcripts) == [] == MissingChunks(n, transcripts);
    }
  }

  /** Earlier chunks come first: the merge of chunks 1..m is a prefix of the merge of
      chunks 1..n. */
  lemma {:induction false} MergedPrefix(m: int, n: int, transcripts: map<int, string>)
    requires 0 <= m <= n
    ensures Merged(m, transcripts) <= Merged(n, transcripts)
    decreases n
  {
    if m < n {
      MergedPrefix(m, n - 1, transcripts);
    }
  }

  /** Chunk k's transcript sits right after chunks 1..k-1 in the merged text. */
  lemma MergedPlacesChunk(n: int, k: int, transcripts: map<int, string>)
    requires 1 <= k <= n && k in transcripts
    ensures Merged(k - 1, transcripts) + transcripts[k] <= Merged(n, transcripts)
  {
    MergedPrefix(k, n, transcripts);
  }

  function Concat(parts: seq<string>): string
  {
    if parts == [] then [] else Concat(parts[..|parts| - 1]) + parts[|parts| - 1]
  }

  /** With every chunk's transcript present, the final file is their concatenation in
      index order. */
  lemma {:induction false} MergedAllPresent(n: int, transcripts: map<int, string>)
    requires n >= 0 && forall i :: 1 <= i <= n ==> i in transcripts
    ensures Merged(n, transcripts) == Concat(seq(n, i requires 0 <= i < n => transcripts[i + 1]))
  {
    var parts := seq(n, i requires 0 <= i < n => transcripts[i + 1]);
    if n > 0 {
      MergedAllPresent(n - 1, transcripts);
      assert parts[..n - 1] == seq(n - 1, i requires 0 <= i < n - 1 => transcripts[i + 1]);
    }
  }

  /** Only the chunks 1..n are read: other entries of the directory do not matter. */
  lemma {:induction false} MergedReadsOnlyChunks(n: int, transcripts: map<int, string>, k: int, text: string)
    requires k < 1 || n < k
    ensures Merged(n, transcripts[k := text]) == Merged(n, transcripts)
    ensures MissingChunks(n, transcripts[k := text]) == MissingChunks(n, transcripts)
    decreases n
  {
    if n > 0 {
      MergedReadsOnlyChunks(n - 1, transcripts, k, text);
    }
  }

  /** A chunk is warned about exactly when it is in 1..n and has no transcript. */
  lemma {:induction false} MissingChunksExact(n: int, transcripts: map<int, string>, k: int)
    ensures k in MissingChunks(n, transcripts) <==> 1 <= k <= n && k !in transcripts
    decreases n
  {
    if n > 0 {
      MissingChunksExact(n - 1, transcripts, k);
    }
  }

  /** What a worker returns: `(chunk_num, success, error)`. */
  datatype Completion = Completion(chunk: int, success: bool, error: Option<string>)

  /** `results` after recording the completions in the order they arrive. */
  function Collect(cs: seq<Completion>): map<int, (bool, Option<string>)>
  {
    if cs == [] then map[]
    else Collect(cs[..|cs| - 1])[cs[|cs| - 1].chunk := (cs[|cs| - 1].success, cs[|cs| - 1].error)]
  }

  /** The collecting loop over `as_completed`. */
  method CollectResults(cs: seq<Completion>) returns (results: map<int, (bool, Option<string>)>)
    ensures results == Collect(cs)
  {
    results := map[];
    for i := 0 to |cs|
      invariant results == Collect(cs[..i])
    {
      assert cs[..i + 1][..i] == cs[..i];
      results := results[cs[i].chunk := (cs[i].success, cs[i].error)];
    }
    assert cs[..|cs|] == cs;
  }

  /** No two completions for the same chunk. */
  predicate Distinct(cs: seq<Completion>)
  {
    forall i, j :: 0 <= i < j < |cs| ==> cs[i].chunk != cs[j].chunk
  }

  /** With one completion per chunk, `results` holds exactly the chunks that completed,
      each with its own outcome. */
  lemma {:induction false} CollectContents(cs: seq<Completion>)
    requires Distinct(cs)
    ensures Collect(cs).Keys == set c | c in cs :: c.chunk
    ensures forall c :: c in cs ==> Collect(cs)[c.chunk] == (c.success, c.error)
  {
    if cs != [] {
      var n := |cs|;
      var init, last := cs[..n - 1], cs[n - 1];
      assert cs == init + [last];
      assert Distinct(init);
      CollectContents(init);
      forall c | c in init ensures c.chunk != last.chunk {
        var i :| 0 <= i < n - 1 && init[i] == c;
        assert cs[i] == c;
      }
    }
  }

  /** `results` depends only on which completions arrived, not on their order. */
  lemma CollectSameElements(cs1: seq<Completion>, cs2: seq<Completion>)
    requires Distinct(cs1) && Distinct(cs2) && forall c :: c in cs1 <==> c in cs2
    ensures Collect(cs1) == Collect(cs2)
  {
    CollectContents(cs1);
    CollectContents(cs2);
    assert Collect(cs1).Keys == Collect(cs2).Keys;
    forall k | k in Collect(cs1) ensures Collect(cs1)[k] == Collect(cs2)[k] {
      var c :| c in cs1 && c.chunk == k;
    }
  }

  /** The order in which workers complete does not change `results`. */
  lemma CollectOrderIrrelevant(cs1: seq<Completion>, cs2: seq<Completion>)
    requires Distinct(cs1) && Distinct(cs2) && multiset(cs1) == multiset(cs2)
    ensures Collect(cs1) == Collect(cs2)
  {
    forall c ensures c in cs1 <==> c in cs2 {
      assert c in cs1 <==> c in multiset(cs1);
      assert c in cs2 <==> c in multiset(cs2);
    }
    CollectSameElements(cs1, cs2);
  }

  /** `failed = {n: e for n, (s, e) in results.items() if not s}`. */
  function Failed(results: map<int, (bool, Option<string>)>): (r: map<int, Option<string>>)
    ensures forall k :: k in r <==> k in results && !results[k].0
    ensures forall k :: k in r ==> r[k] == results[k].1
  {
    map k | k in results && !results[k].0 :: results[k].1
  }

  /** No key appears twice in a sequence of keys. */
  predicate NoRepeats(ks: seq<int>)
  {
    forall i, j :: 0 <= i < j < |ks| ==> ks[i] != ks[j]
  }

  /** The keys of `results` in dict order: a chunk takes its place when it first arrives,
      and a later completion for it only replaces its value. Every key of `results`
      appears, exactly once. */
  function KeyOrder(cs: seq<Completion>): (r: seq<int>)
    ensures forall k :: k in r <==> k in Collect(cs)
    ensures NoRepeats(r)
  {
    if cs == [] then []
    else
      var init := KeyOrder(cs[..|cs| - 1]);
      if cs[|cs| - 1].chunk in init then init else init + [cs[|cs| - 1].chunk]
  }

  /** With one completion per chunk, the dict order is the arrival order. */
  lemma {:induction false} KeyOrderArrival(cs: seq<Completion>)
    requires Distinct(cs)
    ensures KeyOrder(cs) == seq(|cs|, i requires 0 <= i < |cs| => cs[i].chunk)
  {
    if cs != [] {
      var n := |cs|;
      var init := cs[..n - 1];
      assert Distinct(init);
      KeyOrderArrival(init);
      assert cs[n - 1].chunk !in KeyOrder(init) by {
        forall i | 0 <= i < n - 1 ensures KeyOrder(init)[i] != cs[n - 1].chunk {
          assert KeyOrder(init)[i] == cs[i].chunk;
        }
      }
    }
  }

  /** The `failed` dict as its items in order, from `results` and its key order. */
  function Report(results: map<int, (bool, Option<string>)>, order: seq<int>): seq<(int, Option<string>)>
    requires forall k :: k in order ==> k in results
  {
    if order == [] then []
    else
      var k := order[0];
      (if results[k].0 then [] else [(k, results[k].1)]) + Report(results, order[1..])
  }

  /** An item is reported exactly when its key is in the order and failed, with its error. */
  lemma {:induction false} ReportItems(results: map<int, (bool, Option<string>)>, order: seq<int>)
    requires forall k :: k in order ==> k in results
    ensures forall k, e :: (k, e) in Report(results, order) <==> k in order && !results[k].0 && results[k].1 == e
  {
    if order != [] {
      ReportItems(results, order[1..]);
      assert forall x :: x in order <==> x == order[0] || x in order[1..];
    }
  }

  /** The failure lines `process_video` prints, in the order of `failed`, which is the
      order of `results`: a (chunk, error) line appears exactly for an entry of `failed`. */
  function FailureReport(cs: seq<Completion>): (r: seq<(int, Option<string>)>)
    ensures forall k, e :: (k, e) in r <==> k in Failed(Collect(cs)) && Failed(Collect(cs))[k] == e
  {
    ReportItems(Collect(cs), KeyOrder(cs));
    Report(Collect(cs), KeyOrder(cs))
  }

  /** How `process_video` ends when it is not interrupted. */
  datatype VideoOutcome =
    | SplitFailed
    | Finished(failed: seq<(int, Option<string>)>, transcript: string, missing: seq<int>)

  /** After a successful split the final file is written whatever failed: failures and
      missing transcripts produce only warnings. */
  function ProcessVideo(splitOk: bool, n: int, cs: seq<Completion>, transcripts: map<int, string>): (r: VideoOutcome)
    ensures !splitOk <==> r.SplitFailed?
    ensures r.Finished? ==> r.transcript == Merged(n, transcripts) && r.failed == FailureReport(cs)
    ensures r.Finished? ==> r.missing == MissingChunks(n, transcripts)
  {
    if !splitOk then SplitFailed
    else Finished(FailureReport(cs), Merged(n, transcripts), MissingChunks(n, transcripts))
  }

  /** `process_video` goes on to transcribe and merge exactly when the split returned
      true: the duration was known, the count positive, every chunk made and found. */
  lemma ProcessVideoAfterSplit(probe: Option<real>, n: int, created: seq<bool>, present: seq<bool>,
                               cs: seq<Completion>, transcripts: map<int, string>)
    requires n >= 1 ==> |created| == n && |present| == n
    requires SplitVideo(probe, n, created, present).Success?
    ensures ProcessVideo(SplitVideo(probe, n, created, present).value, n, cs, transcripts).Finished?
            <==> probe.Some? && n >= 1 && AllSet(created) && AllSet(present)
  {
  }

  /** The order in which chunks complete changes neither the written file, nor the
      missing-chunk warnings, nor which chunks are reported failed with which error; only
      the order of the failure lines follows it. The file and the warnings come from the
      chunk files alone and never from `results`, so those two conjuncts hold for any two
      completion lists; only the failure set needs the same completions. */
  lemma ProcessVideoOrderIrrelevant(splitOk: bool, n: int, cs1: seq<Completion>, cs2: seq<Completion>, transcripts: map<int, string>)
    requires Distinct(cs1) && Distinct(cs2) && multiset(cs1) == multiset(cs2)
    ensures ProcessVideo(splitOk, n, cs1, transcripts).SplitFailed? == ProcessVideo(splitOk, n, cs2, transcripts).SplitFailed?
    ensures splitOk ==> ProcessVideo(splitOk, n, cs1, transcripts).transcript == ProcessVideo(splitOk, n, cs2, transcripts).transcript
    ensures splitOk ==> ProcessVideo(splitOk, n, cs1, transcripts).missing == ProcessVideo(splitOk, n, cs2, transcripts).missing
    ensures forall k, e :: (k, e) in FailureReport(cs1) <==> (k, e) in FailureReport(cs2)
  {
    CollectOrderIrrelevant(cs1, cs2);
  }

  /** With one completion per chunk, the failure lines follow the arrival order: chunk 3
      failing before chunk 1 is reported first. */
  lemma FailuresInArrivalOrder()
    ensures FailureReport([Completion(3, false, Some("x")), Completion(2, true, None), Completion(1, false, Some("y"))])
            == [(3, Some("x")), (1, Some("y"))]
  {
    var cs := [Completion(3, false, Some("x")), Completion(2, true, None), Completion(1, false, Some("y"))];
    KeyOrderArrival(cs);
    assert KeyOrder(cs) == [3, 2, 1];
    assert cs[..1] == [cs[0]];
    assert cs[..2] == [cs[0], cs[1]];
    assert cs[..2][..1] == cs[..1];
    assert Collect(cs[..1]) == map[3 := (false, Some("x"))];
    assert Collect(cs[..2]) == map[3 := (false, Some("x")), 2 := (true, None)];
    var results := Collect(cs);
    assert results == map[3 := (false, Some("x")), 2 := (true, None), 1 := (false, Some("y"))];
    assert [3, 2, 1][1..] == [2, 1];
    assert [2, 1][1..] == [1];
    assert Report(results, [1]) == [(1, Some("y"))];
    assert Report(results, [2, 1]) == [(1, Some("y"))];
  }

  /** One segment with trailing whitespace gives one line without it. */
  lemma HelloChunk()
    ensures ChunkText([Segment(Some("Hello world. "))]) == "Hello world.\n"
  {
    var h := "Hello world.";
    assert "Hello world. " == [] + h + " ";
    StripPadded([], h, " ");
    ChunkTextSingle(Segment(Some("Hello world. ")));
  }

  lemma GoodbyeChunk()
    ensures ChunkText([Segment(Some("Goodbye now."))]) == "Goodbye now.\n"
  {
    var g := "Goodbye now.";
    StripClean(g);
    ChunkTextSingle(Segment(Some(g)));
    assert CleanText(Segment(Some(g))) == g;
    assert Line(g) == g + "\n";
  }

  /** Two chunks, the second completing first: the file holds chunk 1's text, then chunk 2's. */
  lemma TwoChunkMerge()
    ensures ProcessVideo(true, 2, [Completion(2, true, None), Completion(1, true, None)],
                         map[1 := "Hello world.\n", 2 := "Goodbye now.\n"])
            == Finished([], "Hello world.\nGoodbye now.\n", [])
  {
    var t := map[1 := "Hello world.\n", 2 := "Goodbye now.\n"];
    var cs := [Completion(2, true, None), Completion(1, true, None)];
    assert cs[..1] == [Completion(2, true, None)];
    assert Collect(cs) == map[2 := (true, None), 1 := (true, None)];
    KeyOrderArrival(cs);
    assert KeyOrder(cs) == [2, 1];
    assert [2, 1][1..] == [1];
    assert [1][1..] == [];
    assert FailureReport(cs) == [];
    assert Merged(1, t) == "Hello world.\n";
    assert Merged(2, t) == "Hello world.\nGoodbye now.\n";
    assert MissingChunks(2, t) == [];
  }

  /** The same run from the engine's segments: each chunk file holds its stripped line. */
  lemma TwoChunkScenario()
    ensures ProcessVideo(true, 2, [Completion(2, true, None), Completion(1, true, None)],
                         map[1 := ChunkText([Segment(Some("Hello world. "))]), 2 := ChunkText([Segment(Some("Goodbye now."))])])
            == Finished([], "Hello world.\nGoodbye now.\n", [])
  {
    HelloChunk();
    GoodbyeChunk();
    TwoChunkMerge();
  }

  /** The report of the run below: only chunk 2 failed. */
  lemma FailedChunkReport()
    ensures FailureReport([Completion(1, true, None), Completion(3, true, None), Completion(2, false, Some("boom"))])
            == [(2, Some("boom"))]
  {
    var cs := [Completion(1, true, None), Completion(3, true, None), Completion(2, false, Some("boom"))];
    assert cs[..1] == [Completion(1, true, None)];
    assert cs[..2] == [Completion(1, true, None), Completion(3, true, None)];
    assert cs[..2][..1] == cs[..1];
    assert Collect(cs[..1]) == map[1 := (true, None)];
    assert Collect(cs[..2]) == map[1 := (true, None), 3 := (true, None)];
    var results := Collect(cs);
    assert results == map[1 := (true, None), 3 := (true, None), 2 := (false, Some("boom"))];
    KeyOrderArrival(cs);
    assert KeyOrder(cs) == [1, 3, 2];
    assert [1, 3, 2][1..] == [3, 2];
    assert [3, 2][1..] == [2];
    assert [2][1..] == [];
    assert Report(results, [2]) == [(2, Some("boom"))];
    assert Report(results, [3, 2]) == [(2, Some("boom"))];
  }

  /** A chunk that failed and left no transcript is skipped; the others are still merged. */
  lemma FailedChunkSkipped()
    ensures ProcessVideo(true, 3, [Completion(1, true, None), Completion(3, true, None), Completion(2, false, Some("boom"))],
                         map[1 := "a\n", 3 := "c\n"])
            == Finished([(2, Some("boom"))], "a\nc\n", [2])
  {
    var t := map[1 := "a\n", 3 := "c\n"];
    FailedChunkReport();
    assert Merged(1, t) == "a\n";
    assert Merged(2, t) == "a\n";
    assert Merged(3, t) == "a\nc\n";
    assert MissingChunks(2, t) == [2];
  }
}
