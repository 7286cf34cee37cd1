/** The outer loop and the outcome of `compress_to_target`: walk the DPI ladder,
    skip resolutions that fail to render, run the six-trial quality search at each
    one that renders, commit the first resolution that keeps a qualifying candidate,
    and otherwise fall back to the smallest document built, or fail. */
module Controller {
  import opened Prelude
  import opened Ladder
  import opened Trials
  import opened QualitySearch

  /** How a job ends: a qualifying candidate committed (success within the target),
      the best-so-far committed as a best effort (success above the target), or no
      document was ever built (failure). */
  datatype Outcome = Committed(candidate: Candidate) | Exhausted(size: nat) | NoCandidate

  /** The total handed to the progress callback with every attempt. */
  function TotalAttempts(ladder: seq<int>): nat
  {
    |ladder| * BinSteps
  }

  /** Ladder positions i, i+1, ... of the job, continuing from job state `j`. */
  function Run(o: Oracles, ladder: seq<int>, i: nat, target: int, j: Job): (Outcome, Job)
    requires i <= |ladder|
    decreases |ladder| - i
  {
    if i == |ladder| then
      (if j.best.Some? then Exhausted(j.best.value) else NoCandidate, j)
    else if !o.render(ladder[i]) then
      Run(o, ladder, i + 1, target, j)
    else
      var r := SearchDpi(o, ladder[i], target, j);
      if r.0.candidate.Some? then (Committed(r.0.candidate.value), r.1)
      else Run(o, ladder, i + 1, target, r.1)
  }

  /** The whole job, as a reference definition over the oracles. */
  function Compress(o: Oracles, targetMb: real, inputBytes: nat): (Outcome, Job)
  {
    Run(o, DpiLadder(CompressionRatio(targetMb, inputBytes)), 0, TargetBytes(targetMb), EmptyJob)
  }

  /** The pair the source returns: success, and the size achieved (in bytes here). */
  function Report(out: Outcome): (bool, nat)
  {
    match out
    case Committed(c) => (true, c.size)
    case Exhausted(size) => (true, size)
    case NoCandidate => (false, 0)
  }

  /** How many entries of `s` render. */
  function RenderedCount(o: Oracles, s: seq<int>): (n: nat)
    ensures n <= |s|
  {
    if s == [] then 0 else (if o.render(s[0]) then 1 else 0) + RenderedCount(o, s[1..])
  }

  /** A trial the job really made: at a ladder DPI that rendered, at a quality in
      [39, 95], with what the build oracle gives there. */
  ghost predicate Honest(o: Oracles, ladder: seq<int>, t: Trial)
  {
    && o.render(t.dpi) && t.dpi in ladder
    && t.built == o.build(t.dpi, t.quality)
    && QualityFloor - 1 <= t.quality <= QualityCeiling
  }

  ghost predicate AllHonest(o: Oracles, ladder: seq<int>, ts: seq<Trial>)
  {
    forall k :: 0 <= k < |ts| ==> Honest(o, ladder, ts[k])
  }

  ghost predicate AllFailed(ts: seq<Trial>)
  {
    forall k :: 0 <= k < |ts| ==> ts[k].built.None?
  }

  /** What a committed candidate means for the trials made: it fits the target, its
      DPI rendered, no lower DPI was tried, every qualifying trial was at its DPI with
      at most its quality, and it is one of the trials made. */
  ghost predicate CommitFacts(o: Oracles, c: Candidate, ts: seq<Trial>, target: int)
  {
    && c.size <= target && o.render(c.dpi)
    && (forall k :: 0 <= k < |ts| ==> ts[k].dpi >= c.dpi)
    && (forall k :: 0 <= k < |ts| && Qualifies(ts[k], target) ==>
          ts[k].dpi == c.dpi && ts[k].quality <= c.quality)
    && (exists k :: 0 <= k < |ts| && ts[k].dpi == c.dpi && ts[k].quality == c.quality
                    && ts[k].built == Some(c.size))
  }

  lemma RenderedCountStep(o: Oracles, ladder: seq<int>, i: nat)
    requires i < |ladder|
    ensures RenderedCount(o, ladder[i..]) ==
              (if o.render(ladder[i]) then 1 else 0) + RenderedCount(o, ladder[i + 1..])
  {
    assert ladder[i..][1..] == ladder[i + 1..];
  }

  /** The ladder walk from position i on only appends trials, at most six per
      rendering DPI and exactly six per rendering DPI unless it commits; it keeps the
      job invariant and never worsens the best-so-far. */
  lemma {:induction false} RunShape(o: Oracles, ladder: seq<int>, i: nat, target: int, j: Job)
    requires i <= |ladder| && JobInv(j)
    ensures var r := Run(o, ladder, i, target, j);
            var ts := r.1.trials;
            && JobInv(r.1)
            && |j.trials| <= |ts| && ts[..|j.trials|] == j.trials
            && |ts| <= |j.trials| + BinSteps * RenderedCount(o, ladder[i..])
            && (!r.0.Committed? ==> |ts| == |j.trials| + BinSteps * RenderedCount(o, ladder[i..]))
            && BestNotWorse(j.best, r.1.best)
    decreases |ladder| - i
  {
    if i < |ladder| {
      RenderedCountStep(o, ladder, i);
      if !o.render(ladder[i]) {
        RunShape(o, ladder, i + 1, target, j);
      } else {
        var s := SearchDpi(o, ladder[i], target, j);
        SearchDpiShape(o, ladder[i], target, j);
        if s.0.candidate.None? {
          assert Run(o, ladder, i, target, j) == Run(o, ladder, i + 1, target, s.1);
          RunShape(o, ladder, i + 1, target, s.1);
          var ts := Run(o, ladder, i + 1, target, s.1).1.trials;
          assert ts[..|j.trials|] == ts[..|s.1.trials|][..|j.trials|];
        }
      }
    }
  }

  /** The six trials at one DPI add six to the count at that DPI and nothing
      elsewhere, and a kept candidate is at that DPI. */
  lemma SearchDpiCounts(o: Oracles, dpi: int, target: int, j: Job)
    requires JobInv(j)
    ensures var s := SearchDpi(o, dpi, target, j);
            s.0.candidate.Some? ==> s.0.candidate.value.dpi == dpi
    ensures forall d :: CountAt(SearchDpi(o, dpi, target, j).1.trials, d) ==
                          CountAt(j.trials, d) + (if d == dpi then BinSteps else 0)
  {
    var s := SearchDpi(o, dpi, target, j);
    SearchDpiFacts(o, dpi, target, j);
    var seg := s.1.trials[|j.trials|..];
    forall d ensures CountAt(s.1.trials, d) == CountAt(j.trials, d) + (if d == dpi then BinSteps else 0) {
      CountAtAppend(j.trials, seg, d);
      CountAtUniform(seg, dpi, d);
    }
  }

  /** A DPI the walk from ladder position i reaches and searches: it is on the rest
      of the ladder, it renders, and it is not below the DPI the walk commits at. */
  ghost predicate Reached(o: Oracles, ladder: seq<int>, i: nat, out: Outcome, dpi: int)
    requires i <= |ladder|
  {
    dpi in ladder[i..] && o.render(dpi) && (out.Committed? ==> dpi >= out.candidate.dpi)
  }

  /** The ladder walk from position i on makes exactly six trials at every DPI it
      reaches and none at any other DPI, and commits, if at all, at a ladder DPI. */
  lemma {:induction false} RunCounts(o: Oracles, ladder: seq<int>, i: nat, target: int, j: Job)
    requires i <= |ladder| && StrictlyDescending(ladder) && JobInv(j)
    ensures var r := Run(o, ladder, i, target, j);
            r.0.Committed? ==> r.0.candidate.dpi in ladder[i..]
    ensures var r := Run(o, ladder, i, target, j);
            forall d :: CountAt(r.1.trials, d) ==
                          CountAt(j.trials, d) + (if Reached(o, ladder, i, r.0, d) then BinSteps else 0)
    decreases |ladder| - i
  {
    if i < |ladder| {
      var dpi := ladder[i];
      DescendingTail(ladder, i, ladder[i + 1..]);
      if !o.render(dpi) {
        RunCounts(o, ladder, i + 1, target, j);
        var r := Run(o, ladder, i + 1, target, j);
        forall d ensures Reached(o, ladder, i, r.0, d) == Reached(o, ladder, i + 1, r.0, d) {
        }
      } else {
        var s := SearchDpi(o, dpi, target, j);
        SearchDpiCounts(o, dpi, target, j);
        SearchDpiShape(o, dpi, target, j);
        if s.0.candidate.Some? {
          var out := Committed(s.0.candidate.value);
          forall d ensures Reached(o, ladder, i, out, d) == (d == dpi) {
          }
        } else {
          RunCounts(o, ladder, i + 1, target, s.1);
          var r := Run(o, ladder, i + 1, target, s.1);
          forall d ensures Reached(o, ladder, i, r.0, d) == (d == dpi || Reached(o, ladder, i + 1, r.0, d)) {
          }
        }
      }
    }
  }

  /** Every trial the ladder walk adds is an honest trial at a ladder DPI. */
  lemma {:induction false} RunHonest(o: Oracles, ladder: seq<int>, i: nat, target: int, j: Job)
    requires i <= |ladder| && JobInv(j)
    requires AllHonest(o, ladder, j.trials)
    ensures AllHonest(o, ladder, Run(o, ladder, i, target, j).1.trials)
    decreases |ladder| - i
  {
    if i < |ladder| {
      if !o.render(ladder[i]) {
        RunHonest(o, ladder, i + 1, target, j);
      } else {
        var s := SearchDpi(o, ladder[i], target, j);
        SearchDpiFacts(o, ladder[i], target, j);
        var seg := s.1.trials[|j.trials|..];
        assert AllHonest(o, ladder, s.1.trials) by {
          forall k | 0 <= k < |s.1.trials| ensures Honest(o, ladder, s.1.trials[k]) {
            if k >= |j.trials| { assert s.1.trials[k] == seg[k - |j.trials|]; }
          }
        }
        if s.0.candidate.None? {
          RunHonest(o, ladder, i + 1, target, s.1);
        }
      }
    }
  }

  /** The trials of one rendering DPI, appended to a job in which nothing qualified
      and every trial was at an earlier ladder position: the job then still has
      nothing qualifying when the DPI keeps no candidate, and otherwise the kept
      candidate is committable. */
  lemma SegmentOutcome(o: Oracles, ladder: seq<int>, i: nat, target: int, j: Job)
    requires i < |ladder| && StrictlyDescending(ladder) && o.render(ladder[i])
    requires JobInv(j) && NoneQualify(j.trials, target)
    requires forall k :: 0 <= k < |j.trials| ==> j.trials[k].dpi in ladder[..i]
    ensures var s := SearchDpi(o, ladder[i], target, j);
            var ts := s.1.trials;
            && (s.0.candidate.None? ==>
                  NoneQualify(ts, target) && forall k :: 0 <= k < |ts| ==> ts[k].dpi in ladder[..i + 1])
            && (s.0.candidate.Some? ==>
                  !NoneQualify(ts, target) && CommitFacts(o, s.0.candidate.value, ts, target))
  {
    var s := SearchDpi(o, ladder[i], target, j);
    SearchDpiFacts(o, ladder[i], target, j);
    AppendedSegment(o, ladder, i, target, j.trials, s.1.trials[|j.trials|..], s.0.candidate);
  }

  /** The same, over the trial sequences alone: `prev` are the earlier trials, `seg`
      the six at ladder position i and `cand` the candidate they left. */
  lemma AppendedSegment(o: Oracles, ladder: seq<int>, i: nat, target: int,
                        prev: seq<Trial>, seg: seq<Trial>, cand: Option<Candidate>)
    requires i < |ladder| && StrictlyDescending(ladder) && o.render(ladder[i])
    requires NoneQualify(prev, target)
    requires forall k :: 0 <= k < |prev| ==> prev[k].dpi in ladder[..i]
    requires forall k :: 0 <= k < |seg| ==> seg[k].dpi == ladder[i]
    requires cand.None? <==> NoneQualify(seg, target)
    requires cand.Some? ==>
               var c := cand.value;
               && c.dpi == ladder[i] && c.size <= target
               && (exists m :: 0 <= m < |seg| && seg[m].quality == c.quality && seg[m].built == Some(c.size))
               && (forall m :: 0 <= m < |seg| && Qualifies(seg[m], target) ==> seg[m].quality <= c.quality)
    ensures cand.None? ==>
              NoneQualify(prev + seg, target)
              && forall k :: 0 <= k < |prev + seg| ==> (prev + seg)[k].dpi in ladder[..i + 1]
    ensures cand.Some? ==>
              !NoneQualify(prev + seg, target) && CommitFacts(o, cand.value, prev + seg, target)
  {
    var ts := prev + seg;
    if cand.Some? {
      var c := cand.value;
      var m :| 0 <= m < |seg| && seg[m].quality == c.quality && seg[m].built == Some(c.size);
      assert ts[|prev| + m] == seg[m];
      assert Qualifies(ts[|prev| + m], target);
      forall k | 0 <= k < |ts|
        ensures ts[k].dpi >= c.dpi
        ensures Qualifies(ts[k], target) ==> ts[k].dpi == c.dpi && ts[k].quality <= c.quality
      {
        if k < |prev| {
          assert ts[k] == prev[k];
          var p :| 0 <= p < i && ladder[p] == ts[k].dpi;
        } else {
          assert ts[k] == seg[k - |prev|];
        }
      }
    } else {
      assert ladder[..i] <= ladder[..i + 1];
      assert ladder[i] in ladder[..i + 1];
      forall k | 0 <= k < |ts|
        ensures !Qualifies(ts[k], target) && ts[k].dpi in ladder[..i + 1]
      {
        if k < |prev| { assert ts[k] == prev[k]; }
        else { assert ts[k] == seg[k - |prev|]; }
      }
    }
  }

  /** The ladder walk from position i on commits exactly when some trial fits, and
      then the committed candidate is the highest-quality fitting trial of the first
      DPI that had one; otherwise it falls back to the smallest size built, or fails
      exactly when nothing was ever built. */
  lemma {:induction false} RunOutcome(o: Oracles, ladder: seq<int>, i: nat, target: int, j: Job)
    requires i <= |ladder| && StrictlyDescending(ladder)
    requires JobInv(j) && NoneQualify(j.trials, target)
    requires forall k :: 0 <= k < |j.trials| ==> j.trials[k].dpi in ladder[..i]
    ensures var r := Run(o, ladder, i, target, j);
            var out := r.0;
            var ts := r.1.trials;
            && (out.Committed? <==> !NoneQualify(ts, target))
            && (out.Committed? ==> CommitFacts(o, out.candidate, ts, target))
            && (out.Exhausted? ==> Some(out.size) == MinOf(Sizes(ts)))
            && (out.NoCandidate? <==> Sizes(ts) == [])
    decreases |ladder| - i
  {
    if i == |ladder| {
      MinOfIsLeast(Sizes(j.trials));
    } else {
      var dpi := ladder[i];
      if !o.render(dpi) {
        assert forall k :: 0 <= k < |j.trials| ==> j.trials[k].dpi in ladder[..i + 1] by {
          assert ladder[..i] <= ladder[..i + 1];
        }
        RunOutcome(o, ladder, i + 1, target, j);
      } else {
        var s := SearchDpi(o, dpi, target, j);
        SearchDpiFacts(o, dpi, target, j);
        SegmentOutcome(o, ladder, i, target, j);
        if s.0.candidate.Some? {
          var c := s.0.candidate.value;
          var ts := s.1.trials;
          var m :| 0 <= m < |ts| && ts[m].dpi == c.dpi && ts[m].quality == c.quality
                   && ts[m].built == Some(c.size);
          SizesAreBuilt(ts);
          assert c.size in Sizes(ts);
        } else {
          RunOutcome(o, ladder, i + 1, target, s.1);
        }
      }
    }
  }

  /** The trials of a whole job: numbered 1, 2, 3, ... as the progress callback is
      told, never more than the total it is told, each at a ladder DPI that rendered
      and at a quality in [39, 95]; unless the job commits, every rendering DPI got
      exactly six trials. */
  lemma CompressTrials(o: Oracles, targetMb: real, inputBytes: nat)
    ensures var ladder := DpiLadder(CompressionRatio(targetMb, inputBytes));
            var r := Compress(o, targetMb, inputBytes);
            var ts := r.1.trials;
            && |ts| <= TotalAttempts(ladder)
            && (forall k :: 0 <= k < |ts| ==> ts[k].attempt == k + 1)
            && AllHonest(o, ladder, ts)
            && (!r.0.Committed? ==> |ts| == BinSteps * RenderedCount(o, ladder))
  {
    var ladder := DpiLadder(CompressionRatio(targetMb, inputBytes));
    var target := TargetBytes(targetMb);
    assert ladder[0..] == ladder;
    RunShape(o, ladder, 0, target, EmptyJob);
    RunHonest(o, ladder, 0, target, EmptyJob);
  }

  /** Per DPI, a whole job makes exactly six trials at every ladder DPI that renders
      and is not below the committed DPI (every rendering ladder DPI when nothing is
      committed), and no trial at any other DPI; a committed DPI is on the ladder. */
  lemma CompressCounts(o: Oracles, targetMb: real, inputBytes: nat)
    ensures var ladder := DpiLadder(CompressionRatio(targetMb, inputBytes));
            var r := Compress(o, targetMb, inputBytes);
            && (r.0.Committed? ==> r.0.candidate.dpi in ladder)
            && forall d :: CountAt(r.1.trials, d) == if Reached(o, ladder, 0, r.0, d) then BinSteps else 0
  {
    var ladder := DpiLadder(CompressionRatio(targetMb, inputBytes));
    var target := TargetBytes(targetMb);
    assert ladder[0..] == ladder;
    RunCounts(o, ladder, 0, target, EmptyJob);
  }

  /** The scratch writes of a whole job strictly decrease, there is one exactly when
      something was built, and the last one is the best-so-far. */
  lemma CompressScratch(o: Oracles, targetMb: real, inputBytes: nat)
    ensures var j := Compress(o, targetMb, inputBytes).1;
            && StrictlyDescending(j.scratch)
            && (j.scratch == [] <==> j.best.None?)
            && (j.scratch != [] ==> j.best == Some(j.scratch[|j.scratch| - 1]))
            && (j.scratch == [] <==> AllFailed(j.trials))
  {
    var ladder := DpiLadder(CompressionRatio(targetMb, inputBytes));
    var target := TargetBytes(targetMb);
    RunShape(o, ladder, 0, target, EmptyJob);
    var j := Run(o, ladder, 0, target, EmptyJob).1;
    JobScratch(j);
    MinOfIsLeast(Sizes(j.trials));
    SizesAreBuilt(j.trials);
    if Sizes(j.trials) != [] {
      assert Sizes(j.trials)[0] in Sizes(j.trials);
    }
  }

  /** The outcome of a whole job: it commits exactly when some trial fits the target,
      and then commits the highest-quality fitting document of the first (highest)
      DPI that had one, trying no lower DPI; otherwise it falls back to the smallest
      size built, which is over the target, or fails exactly when no build ever
      succeeded. */
  lemma CompressOutcome(o: Oracles, targetMb: real, inputBytes: nat)
    ensures var target := TargetBytes(targetMb);
            var r := Compress(o, targetMb, inputBytes);
            var out := r.0;
            var ts := r.1.trials;
            && (out.Committed? <==> !NoneQualify(ts, target))
            && (out.Committed? ==> CommitFacts(o, out.candidate, ts, target))
            && (out.Exhausted? ==> Some(out.size) == MinOf(Sizes(ts)) && out.size > target)
            && (out.NoCandidate? <==> AllFailed(ts))
  {
    var ladder := DpiLadder(CompressionRatio(targetMb, inputBytes));
    var target := TargetBytes(targetMb);
    RunOutcome(o, ladder, 0, target, EmptyJob);
    var r := Compress(o, targetMb, inputBytes);
    var ts := r.1.trials;
    MinOfIsLeast(Sizes(ts));
    SizesAreBuilt(ts);
    if r.0.Exhausted? {
      NoneQualifyMeansAllOver(ts, target);
    }
    if Sizes(ts) != [] {
      assert Sizes(ts)[0] in Sizes(ts);
    }
  }

  /** The number of attempts the progress callback is told about is 30 for the
      highest ladder and 36 for every other. */
  lemma TotalAttemptsValues(ratio: real)
    ensures TotalAttempts(DpiLadder(ratio)) == if ratio > 0.8 then 30 else 36
  {
  }

  /** One trial of the inner loop: query the middle quality, record the trial,
      replace the best-so-far (with a scratch write) when strictly smaller, and move
      the bounds: down for a failed or oversize build, up past a fitting one, which
      becomes the candidate. */
  method QualityTrial(o: Oracles, dpi: int, target: int, b: Bounds, job: Job)
    returns (b': Bounds, job': Job)
    ensures (b', job') == Step(o, dpi, target, b, job)
  {
    var qLow, qHigh, candidate := b.qLow, b.qHigh, b.candidate;
    var attempt := job.attempt + 1;
    var qMid := (qLow + qHigh) / 2;
    var built := o.build(dpi, qMid);
    job' := job.(attempt := attempt, trials := job.trials + [Trial(attempt, dpi, qMid, built)]);
    if built.None? {
      StepJobWhenFailed(o, dpi, target, b, job);
      StepWhenNotFitting(o, dpi, target, b, job);
      qHigh := qMid - 1;
    } else {
      var size := built.value;
      StepJobWhenBuilt(o, dpi, target, b, job, size);
      if job'.best.None? || size < job'.best.value {
        job' := job'.(best := Some(size), scratch := job'.scratch + [size]);
      }
      if size > target {
        StepWhenNotFitting(o, dpi, target, b, job);
        qHigh := qMid - 1;
      } else {
        StepWhenFitting(o, dpi, target, b, job);
        candidate := Some(Candidate(dpi, qMid, size));
        qLow := qMid + 1;
      }
    }
    b' := Bounds(qLow, qHigh, candidate);
  }

  /** The progress-callback calls made over the first `attempts` trials: (1, total),
      (2, total), ... when a callable callback was given, and none otherwise. */
  ghost predicate ProgressLog(callback: bool, progress: seq<(nat, nat)>, attempts: nat, total: nat)
  {
    if callback then |progress| == attempts && forall k :: 0 <= k < |progress| ==> progress[k] == (k + 1, total)
    else progress == []
  }

  /** The inner loop of `compress_to_target` at one DPI that rendered: six trials of
      the quality binary search, each numbered and, when a callback was given,
      reported to it before it is built. */
  method SearchQuality(o: Oracles, dpi: int, target: int, total: nat, callback: bool, job: Job,
                       progress: seq<(nat, nat)>)
    returns (candidate: Option<Candidate>, job': Job, progress': seq<(nat, nat)>)
    requires job.attempt == |job.trials| && ProgressLog(callback, progress, job.attempt, total)
    ensures candidate == SearchDpi(o, dpi, target, job).0.candidate
    ensures job' == SearchDpi(o, dpi, target, job).1
    ensures job'.attempt == |job'.trials| && ProgressLog(callback, progress', job'.attempt, total)
  {
    var b := InitialBounds;
    job', progress' := job, progress;
    var step := 0;
    while step < BinSteps
      invariant step <= BinSteps
      invariant SearchDpi(o, dpi, target, job) == Search(o, dpi, target, step, b, job')
      invariant job'.attempt == |job'.trials| && ProgressLog(callback, progress', job'.attempt, total)
    {
      SearchAdvances(o, dpi, target, step, b, job');
      StepAppendsTrial(o, dpi, target, b, job');
      if callback {
        progress' := progress' + [(job'.attempt + 1, total)];
      }
      b, job' := QualityTrial(o, dpi, target, b, job');
      step := step + 1;
    }
    candidate := b.candidate;
  }

  /** `compress_to_target` itself: the outer loop over the ladder, skipping DPIs that
      fail to render, committing the first DPI that keeps a candidate, and otherwise
      falling back to the best-so-far or failing. `callback` tells whether a callable
      progress callback was given. Besides the pair the source returns, it returns
      every trial, every scratch write and every progress-callback call. */
  method CompressToTarget(o: Oracles, targetMb: real, inputBytes: nat, callback: bool)
    returns (ok: bool, achieved: nat, trials: seq<Trial>, scratch: seq<nat>, progress: seq<(nat, nat)>)
    ensures (ok, achieved) == Report(Compress(o, targetMb, inputBytes).0)
    ensures trials == Compress(o, targetMb, inputBytes).1.trials
    ensures scratch == Compress(o, targetMb, inputBytes).1.scratch
    ensures !callback ==> progress == []
    ensures var total := TotalAttempts(DpiLadder(CompressionRatio(targetMb, inputBytes)));
            callback ==>
              |progress| == |trials| && forall k :: 0 <= k < |progress| ==> progress[k] == (k + 1, total) && k < total
    ensures forall k :: 0 <= k < |trials| ==> QualityFloor - 1 <= trials[k].quality <= QualityCeiling
  {
    var ladder := DpiLadder(CompressionRatio(targetMb, inputBytes));
    var target := TargetBytes(targetMb);
    var total := |ladder| * BinSteps;
    var job := EmptyJob;
    progress := [];
    var i := 0;
    while i < |ladder|
      invariant i <= |ladder|
      invariant Run(o, ladder, 0, target, EmptyJob) == Run(o, ladder, i, target, job)
      invariant job.attempt == |job.trials| && ProgressLog(callback, progress, job.attempt, total)
    {
      var dpi := ladder[i];
      if o.render(dpi) {
        var candidate;
        candidate, job, progress := SearchQuality(o, dpi, target, total, callback, job, progress);
        if candidate.Some? {
          ok, achieved := true, candidate.value.size;
          trials, scratch := job.trials, job.scratch;
          CompressTrials(o, targetMb, inputBytes);
          return;
        }
      }
      i := i + 1;
    }
    if job.best.Some? {
      ok, achieved := true, job.best.value;
    } else {
      ok, achieved := false, 0;
    }
    trials, scratch := job.trials, job.scratch;
    CompressTrials(o, targetMb, inputBytes);
  }
}
