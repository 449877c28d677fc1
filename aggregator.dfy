/** `run_metric`: two decoders pulled in lockstep, one comparison per frame pair, the
    scores summed and the norms collected, then the average and the percentile input. */
module Aggregator {
  import opened Wrappers
  import opened YuvRaster
  import opened ScorerOutput

  /** The result of comparing one frame pair: the parsed scorer output, with `f64` as `real`. */
  type Sample = ScoreSample<real>

  /** What the run prints on success: the average score, and the norm values handed to the
      75th-percentile estimator when there are any (no percentile line otherwise). */
  datatype Summary = Summary(average: real, percentileInput: Option<seq<real>>)

  /** The run panics with "No frames read" when no pair was compared. */
  datatype RunError = NoFramesRead

  function Min(a: nat, b: nat): nat {
    if a <= b then a else b
  }

  /** The sample width each stream is read with in the four arms of the match:
      `(8, 8)`, `(8, _)`, `(_, 8)` and `(_, _)`. */
  function ReadWidths(bitDepth1: nat, bitDepth2: nat): (w: (SampleWidth, SampleWidth))
    ensures w.0 == OneByte <==> bitDepth1 == 8
    ensures w.1 == OneByte <==> bitDepth2 == 8
  {
    match (bitDepth1, bitDepth2)
    case (8, 8) => (OneByte, OneByte)
    case (8, _) => (OneByte, TwoBytes)
    case (_, 8) => (TwoBytes, OneByte)
    case (_, _) => (TwoBytes, TwoBytes)
  }

  /** For every bit depth the program handles (8, 10, 12 and 16), the arm chosen reads
      each stream so that the conversion gives each in-range sample as
      `s >> (bit_depth - 8)`: `u8` samples unshifted at depth 8, `u16` samples shifted above it. */
  lemma ReadWidthsNarrowExact(bitDepth1: nat, bitDepth2: nat, s1: nat, s2: nat)
    requires bitDepth1 in {8, 10, 12, 16} && bitDepth2 in {8, 10, 12, 16}
    requires s1 < Pow2(bitDepth1) && s1 < ContainerBound(ReadWidths(bitDepth1, bitDepth2).0)
    requires s2 < Pow2(bitDepth2) && s2 < ContainerBound(ReadWidths(bitDepth1, bitDepth2).1)
    ensures Narrow(s1, ReadWidths(bitDepth1, bitDepth2).0, bitDepth1 - 8) == Shr(s1, bitDepth1 - 8)
    ensures Narrow(s2, ReadWidths(bitDepth1, bitDepth2).1, bitDepth2 - 8) == Shr(s2, bitDepth2 - 8)
  {
    var (w1, w2) := ReadWidths(bitDepth1, bitDepth2);
    if w1 == TwoBytes { ShiftedSampleFits(s1, bitDepth1); }
    if w2 == TwoBytes { ShiftedSampleFits(s2, bitDepth2); }
  }

  /** The next frame of a stream, or `None` once it is exhausted. */
  function Pull<F>(frames: seq<F>, position: nat): (r: Option<F>)
    ensures r.None? <==> position >= |frames|
    ensures r.Some? ==> r.value == frames[position]
  {
    if position < |frames| then Some(frames[position]) else None
  }

  /** The samples of the first `n` pairs, in frame order. */
  function PairSamples<F1, F2>(frames1: seq<F1>, frames2: seq<F2>, compare: (F1, F2) -> Sample, n: nat): (r: seq<Sample>)
    requires n <= |frames1| && n <= |frames2|
    ensures |r| == n
    ensures forall i :: 0 <= i < n ==> r[i] == compare(frames1[i], frames2[i])
  {
    if n == 0 then [] else PairSamples(frames1, frames2, compare, n - 1) + [compare(frames1[n - 1], frames2[n - 1])]
  }

  /** The sum of the scores. */
  function TotalScore(samples: seq<Sample>): (r: real)
    ensures samples == [] ==> r == 0.0
    ensures (forall i :: 0 <= i < |samples| ==> samples[i].score >= 0.0) ==> r >= 0.0
  {
    if samples == [] then 0.0 else TotalScore(samples[..|samples| - 1]) + samples[|samples| - 1].score
  }

  /** The norms that are present, in order. */
  function PresentNorms(samples: seq<Sample>): (r: seq<real>)
    ensures |r| <= |samples|
    ensures |r| == |samples| <==> forall i :: 0 <= i < |samples| ==> samples[i].norm.Some?
  {
    if samples == [] then []
    else
      var init, last := samples[..|samples| - 1], samples[|samples| - 1];
      assert forall i :: 0 <= i < |init| ==> init[i] == samples[i];
      PresentNorms(init) + (if last.norm.Some? then [last.norm.value] else [])
  }

  lemma {:induction false} TotalScoreAppend(a: seq<Sample>, b: seq<Sample>)
    ensures TotalScore(a + b) == TotalScore(a) + TotalScore(b)
    decreases |b|
  {
    if b != [] {
      assert (a + b)[..|a + b| - 1] == a + b[..|b| - 1];
      TotalScoreAppend(a, b[..|b| - 1]);
    } else {
      assert a + b == a;
    }
  }

  /** Collecting norms commutes with concatenation: the collection keeps frame order. */
  lemma {:induction false} PresentNormsAppend(a: seq<Sample>, b: seq<Sample>)
    ensures PresentNorms(a + b) == PresentNorms(a) + PresentNorms(b)
    decreases |b|
  {
    if b != [] {
      assert (a + b)[..|a + b| - 1] == a + b[..|b| - 1];
      PresentNormsAppend(a, b[..|b| - 1]);
    } else {
      assert a + b == a;
    }
  }

  /** A present norm is collected and an absent one is skipped. */
  lemma PresentNormsOfOne(s: Sample)
    ensures PresentNorms([s]) == if s.norm.Some? then [s.norm.value] else []
  {
    assert [s][..0] == [];
  }

  /** No norm is collected exactly when every pair lacked one. */
  lemma {:induction false} PresentNormsEmpty(samples: seq<Sample>)
    ensures PresentNorms(samples) == [] <==> forall i :: 0 <= i < |samples| ==> samples[i].norm.None?
  {
    if samples != [] {
      var init := samples[..|samples| - 1];
      PresentNormsEmpty(init);
      assert forall i :: 0 <= i < |init| ==> init[i] == samples[i];
    }
  }

  /** Every collected norm is the norm of some pair. */
  lemma {:induction false} PresentNormsFromSamples(samples: seq<Sample>, j: nat)
    requires j < |PresentNorms(samples)|
    ensures exists i :: 0 <= i < |samples| && samples[i].norm == Some(PresentNorms(samples)[j])
  {
    var init := samples[..|samples| - 1];
    if j < |PresentNorms(init)| {
      PresentNormsFromSamples(init, j);
      var i :| 0 <= i < |init| && init[i].norm == Some(PresentNorms(init)[j]);
      assert samples[i] == init[i];
    } else {
      assert samples[|samples| - 1].norm == Some(PresentNorms(samples)[j]);
    }
  }

  /** The norm of pair `i`, when present, is collected right after the norms of the pairs before it. */
  lemma PresentNormAt(samples: seq<Sample>, i: nat)
    requires i < |samples| && samples[i].norm.Some?
    ensures |PresentNorms(samples[..i])| < |PresentNorms(samples)|
    ensures PresentNorms(samples)[|PresentNorms(samples[..i])|] == samples[i].norm.value
  {
    assert samples == samples[..i] + [samples[i]] + samples[i + 1..];
    PresentNormsAppend(samples[..i] + [samples[i]], samples[i + 1..]);
    PresentNormsAppend(samples[..i], [samples[i]]);
    PresentNormsOfOne(samples[i]);
  }

  /** When every pair scores the same, the sum is that score times the number of pairs,
      so the run's average is that score. */
  lemma {:induction false} UniformScoreTotal(samples: seq<Sample>, c: real)
    requires forall i :: 0 <= i < |samples| ==> samples[i].score == c
    ensures TotalScore(samples) == (|samples| as real) * c
  {
    if samples != [] {
      var init := samples[..|samples| - 1];
      assert forall i :: 0 <= i < |init| ==> init[i] == samples[i];
      UniformScoreTotal(init, c);
    }
  }

  /** What follows the loop: "No frames read" when no pair was compared; otherwise the
      average score, and the norms for the percentile estimator when there are any. */
  function Summarize(frameno: nat, sum: real, norms: seq<real>): (r: Result<Summary, RunError>)
    ensures r.Err? <==> frameno == 0
    ensures r.Ok? ==> r.value.average == sum / (frameno as real)
    ensures r.Ok? ==> (r.value.percentileInput.Some? <==> norms != [])
    ensures r.Ok? && norms != [] ==> r.value.percentileInput == Some(norms)
  {
    if frameno == 0 then Err(NoFramesRead)
    else Ok(Summary(sum / (frameno as real), if norms == [] then None else Some(norms)))
  }

  /** The loop of `run_metric`. `compare` stands for converting both frames, running the
      scorer and parsing its output. Returns the length-mismatch warning (the frame index
      it names), the pair count, the score sum, the collected norms and the outcome. */
  method RunMetric<F1, F2>(details1: VideoDetails, details2: VideoDetails,
                           frames1: seq<F1>, frames2: seq<F2>, compare: (F1, F2) -> Sample)
    returns (warning: Option<nat>, frameno: nat, sum: real, norms: seq<real>, outcome: Result<Summary, RunError>)
    requires details1.height == details2.height && details1.width == details2.width
    ensures frameno == Min(|frames1|, |frames2|)
    ensures warning.Some? <==> |frames1| != |frames2|
    ensures warning.Some? ==> warning.value == frameno
    ensures sum == TotalScore(PairSamples(frames1, frames2, compare, frameno))
    ensures norms == PresentNorms(PairSamples(frames1, frames2, compare, frameno))
    ensures outcome.Err? <==> frameno == 0
    ensures outcome.Ok? ==> outcome.value.average == sum / (frameno as real)
    ensures outcome.Ok? ==> (outcome.value.percentileInput.Some? <==> norms != [])
    ensures outcome.Ok? && norms != [] ==> outcome.value.percentileInput == Some(norms)
  {
    sum, norms, frameno, warning := 0.0, [], 0, None;
    while true
      invariant frameno <= |frames1| && frameno <= |frames2|
      invariant warning.None?
      invariant sum == TotalScore(PairSamples(frames1, frames2, compare, frameno))
      invariant norms == PresentNorms(PairSamples(frames1, frames2, compare, frameno))
      decreases |frames1| - frameno
    {
      var frame1 := Pull(frames1, frameno);
      var frame2 := Pull(frames2, frameno);
      if frame1.None? || frame2.None? {
        if frame1.Some? || frame2.Some? {
          warning := Some(frameno);
        }
        break;
      }
      var sample := compare(frame1.value, frame2.value);
      ghost var before := PairSamples(frames1, frames2, compare, frameno);
      sum := sum + sample.score;
      if sample.norm.Some? {
        norms := norms + [sample.norm.value];
      }
      frameno := frameno + 1;
      assert PairSamples(frames1, frames2, compare, frameno) == before + [sample];
      TotalScoreAppend(before, [sample]);
      PresentNormsAppend(before, [sample]);
      PresentNormsOfOne(sample);
    }
    outcome := Summarize(frameno, sum, norms);
  }
}
