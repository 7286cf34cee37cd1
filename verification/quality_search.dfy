/** The inner loop of `compress_to_target`: at one DPI whose rendering succeeded, a
    binary search over JPEG quality with exactly six trials, starting from the bounds
    40..95. Each trial updates the job's best-so-far (with a scratch write) and the
    resolution's qualifying candidate. */
module QualitySearch {
  import opened Prelude
  import opened Trials

  const BinSteps: nat := 6
  const QualityFloor: int := 40
  const QualityCeiling: int := 95

  /** The per-resolution search state: the quality bounds and the kept candidate. */
  datatype Bounds = Bounds(qLow: int, qHigh: int, candidate: Option<Candidate>)

  const InitialBounds: Bounds := Bounds(QualityFloor, QualityCeiling, None)

  /** The quality a trial queries; Dafny's `/` by a positive divisor floors, as
      Python's `//` does. */
  function Mid(b: Bounds): int
  {
    (b.qLow + b.qHigh) / 2
  }

  /** One trial. A failed build narrows the bounds downward exactly as an oversize
      build does; only a successful build can replace the best-so-far, and only a
      build at or under the target becomes the candidate. */
  function Step(o: Oracles, dpi: int, target: int, b: Bounds, j: Job): (Bounds, Job)
  {
    var q := Mid(b);
    var built := o.build(dpi, q);
    var j1 := j.(attempt := j.attempt + 1, trials := j.trials + [Trial(j.attempt + 1, dpi, q, built)]);
    match built
    case None => (b.(qHigh := q - 1), j1)
    case Some(size) =>
      var j2 := if Improves(size, j.best) then j1.(best := Some(size), scratch := j.scratch + [size]) else j1;
      if size > target then (b.(qHigh := q - 1), j2)
      else (Bounds(q + 1, b.qHigh, Some(Candidate(dpi, q, size))), j2)
  }

  /** Trials number k+1 .. BinSteps at one DPI. */
  function Search(o: Oracles, dpi: int, target: int, k: nat, b: Bounds, j: Job): (Bounds, Job)
    requires k <= BinSteps
    decreases BinSteps - k
  {
    if k == BinSteps then (b, j)
    else
      var next := Step(o, dpi, target, b, j);
      Search(o, dpi, target, k + 1, next.0, next.1)
  }

  /** The search from trial k is trial k+1 followed by the search from trial k+1. */
  lemma SearchAdvances(o: Oracles, dpi: int, target: int, k: nat, b: Bounds, j: Job)
    requires k < BinSteps
    ensures Search(o, dpi, target, k, b, j) ==
              Search(o, dpi, target, k + 1, Step(o, dpi, target, b, j).0, Step(o, dpi, target, b, j).1)
  {
  }

  /** The whole six-trial search at one DPI. */
  function SearchDpi(o: Oracles, dpi: int, target: int, j: Job): (Bounds, Job)
  {
    Search(o, dpi, target, 0, InitialBounds, j)
  }

  // ---------------------------------------------------------------------------
  // The bounds never cross by more than one before a trial.

  /** The least width qHigh - qLow + 1 the bounds can have after k trials: 56 at the
      start, and a trial leaves at least (w - 1) / 2 of a width w. */
  function MinWidth(k: nat): int
  {
    if k == 0 then QualityCeiling - QualityFloor + 1 else (MinWidth(k - 1) - 1) / 2
  }

  ghost predicate BoundsInv(b: Bounds, k: nat)
  {
    QualityFloor <= b.qLow && b.qHigh <= QualityCeiling && b.qHigh - b.qLow + 1 >= MinWidth(k)
  }

  /** The widths are 56, 27, 13, 6, 2, 0 before the six trials and -1 after them:
      the bounds may touch (qLow == qHigh + 1) before the last trial and cross
      further after it. */
  lemma MinWidthValues()
    ensures MinWidth(0) == 56 && MinWidth(1) == 27 && MinWidth(2) == 13
    ensures MinWidth(3) == 6 && MinWidth(4) == 2 && MinWidth(5) == 0 && MinWidth(6) == -1
  {
    assert MinWidth(1) == 27;
    assert MinWidth(2) == 13;
    assert MinWidth(3) == 6;
    assert MinWidth(4) == 2;
    assert MinWidth(5) == 0;
  }

  /** Before any of the six trials, 40 <= qLow, qHigh <= 95 and qLow <= qHigh + 1, so the
      queried quality lies in [39, 95]; the trial keeps the bounds invariant one step
      further. */
  lemma StepKeepsBounds(o: Oracles, dpi: int, target: int, b: Bounds, j: Job, k: nat)
    requires k < BinSteps && BoundsInv(b, k)
    ensures b.qLow <= b.qHigh + 1
    ensures b.qLow - 1 <= Mid(b) <= b.qHigh
    ensures QualityFloor - 1 <= Mid(b) <= QualityCeiling
    ensures BoundsInv(Step(o, dpi, target, b, j).0, k + 1)
  {
    MinWidthValues();
    var w := b.qHigh - b.qLow + 1;
    var q := Mid(b);
    assert q == b.qLow + (w - 1) / 2;
    assert (w - 1) / 2 >= (MinWidth(k) - 1) / 2;
  }

  // ---------------------------------------------------------------------------
  // What the trials of one resolution leave behind.

  /** The job-wide invariant: the attempt counter counts the trials and numbers them
      1, 2, 3, ..., the best-so-far is the smallest size ever built, and the scratch
      writes are exactly the record-breaking sizes. */
  ghost predicate JobInv(j: Job)
  {
    && j.attempt == |j.trials|
    && AttemptsInOrder(j.trials)
    && j.best == MinOf(Sizes(j.trials))
    && j.scratch == Records(Sizes(j.trials))
  }

  /** Under the job invariant the scratch writes strictly decrease, there is one
      exactly when something was built, and the last one is the best-so-far. */
  lemma JobScratch(j: Job)
    requires JobInv(j)
    ensures StrictlyDescending(j.scratch)
    ensures j.scratch == [] <==> j.best.None?
    ensures j.scratch != [] ==> j.best == Some(j.scratch[|j.scratch| - 1])
  {
    RecordsDescendToMin(Sizes(j.trials));
    MinOfIsLeast(Sizes(j.trials));
  }

  /** The trials `seg` made so far at one DPI: all at that DPI, with qualities in
      [39, 95] and what the build oracle gives there; the kept candidate is the last
      qualifying trial, whose quality is qLow - 1, and every qualifying quality is
      below qLow. */
  ghost predicate SegmentInv(o: Oracles, dpi: int, target: int, b: Bounds, seg: seq<Trial>)
  {
    && (forall i :: 0 <= i < |seg| ==>
          seg[i].dpi == dpi && seg[i].built == o.build(dpi, seg[i].quality)
          && QualityFloor - 1 <= seg[i].quality <= QualityCeiling)
    && b.candidate == LastQualifying(seg, target)
    && (forall i :: 0 <= i < |seg| && Qualifies(seg[i], target) ==> seg[i].quality < b.qLow)
    && (b.candidate.Some? ==> b.candidate.value.quality == b.qLow - 1)
  }

  /** One trial appends exactly one trial record, numbered one past the last. */
  lemma StepAppendsTrial(o: Oracles, dpi: int, target: int, b: Bounds, j: Job)
    ensures var j' := Step(o, dpi, target, b, j).1;
            && j'.attempt == j.attempt + 1
            && j'.trials == j.trials + [Trial(j.attempt + 1, dpi, Mid(b), o.build(dpi, Mid(b)))]
  {
  }

  /** A trial that builds nothing leaves the best-so-far and the scratch file alone. */
  lemma StepJobWhenFailed(o: Oracles, dpi: int, target: int, b: Bounds, j: Job)
    requires o.build(dpi, Mid(b)).None?
    ensures Step(o, dpi, target, b, j).1 ==
              Job(j.attempt + 1, j.best, j.trials + [Trial(j.attempt + 1, dpi, Mid(b), None)], j.scratch)
  {
  }

  /** A trial that builds a document replaces the best-so-far, with one scratch write,
      exactly when the size is strictly smaller. */
  lemma StepJobWhenBuilt(o: Oracles, dpi: int, target: int, b: Bounds, j: Job, size: nat)
    requires o.build(dpi, Mid(b)) == Some(size)
    ensures var t := Trial(j.attempt + 1, dpi, Mid(b), Some(size));
            Step(o, dpi, target, b, j).1 ==
              if Improves(size, j.best) then Job(j.attempt + 1, Some(size), j.trials + [t], j.scratch + [size])
              else Job(j.attempt + 1, j.best, j.trials + [t], j.scratch)
  {
  }

  /** One trial keeps the job invariant: the attempts stay numbered in order, the
      best-so-far stays the smallest size built and the scratch writes stay the
      record-breaking sizes; the best-so-far never gets worse. */
  lemma StepKeepsJob(o: Oracles, dpi: int, target: int, b: Bounds, j: Job)
    requires JobInv(j)
    ensures JobInv(Step(o, dpi, target, b, j).1)
    ensures BestNotWorse(j.best, Step(o, dpi, target, b, j).1.best)
  {
    var built := o.build(dpi, Mid(b));
    var t := Trial(j.attempt + 1, dpi, Mid(b), built);
    AttemptsInOrderSnoc(j.trials, t);
    SizesSnoc(j.trials, t);
    var s := Sizes(j.trials);
    MinOfIsLeast(s);
    var j' := Step(o, dpi, target, b, j).1;
    match built {
      case None =>
        StepJobWhenFailed(o, dpi, target, b, j);
        assert j' == Job(j.attempt + 1, j.best, j.trials + [t], j.scratch);
        assert Sizes(j'.trials) == s;
      case Some(size) =>
        StepJobWhenBuilt(o, dpi, target, b, j, size);
        assert Sizes(j'.trials) == s + [size];
        MinOfSnoc(s, size);
        RecordsSnoc(s, size);
        if Improves(size, j.best) {
          assert j' == Job(j.attempt + 1, Some(size), j.trials + [t], j.scratch + [size]);
        } else {
          assert j' == Job(j.attempt + 1, j.best, j.trials + [t], j.scratch);
        }
    }
  }

  lemma StepKeepsSegment(o: Oracles, dpi: int, target: int, b: Bounds, j: Job, k: nat, start: nat)
    requires k < BinSteps && BoundsInv(b, k)
    requires start <= |j.trials|
    requires SegmentInv(o, dpi, target, b, j.trials[start..])
    ensures var next := Step(o, dpi, target, b, j);
            SegmentInv(o, dpi, target, next.0, next.1.trials[start..])
  {
    StepKeepsBounds(o, dpi, target, b, j, k);
    StepAppendsTrial(o, dpi, target, b, j);
    var q := Mid(b);
    var t := Trial(j.attempt + 1, dpi, q, o.build(dpi, q));
    var seg := j.trials[start..];
    var next := Step(o, dpi, target, b, j);
    assert next.1.trials[start..] == seg + [t];
    LastQualifyingSnoc(seg, t, target);
    if Qualifies(t, target) {
      StepWhenFitting(o, dpi, target, b, j);
    } else {
      StepWhenNotFitting(o, dpi, target, b, j);
    }
    forall i | 0 <= i < |seg| + 1
      ensures (seg + [t])[i].dpi == dpi && (seg + [t])[i].built == o.build(dpi, (seg + [t])[i].quality)
      ensures QualityFloor - 1 <= (seg + [t])[i].quality <= QualityCeiling
      ensures Qualifies((seg + [t])[i], target) ==> (seg + [t])[i].quality < next.0.qLow
    {
      if i < |seg| { assert (seg + [t])[i] == seg[i]; }
    }
  }

  /** The search from trial k on makes exactly BinSteps - k more trials and only
      appends to the job's trial records. */
  lemma {:induction false} SearchAppends(o: Oracles, dpi: int, target: int, k: nat, b: Bounds, j: Job)
    requires k <= BinSteps
    ensures var j' := Search(o, dpi, target, k, b, j).1;
            && |j'.trials| == |j.trials| + (BinSteps - k)
            && j'.trials[..|j.trials|] == j.trials
    decreases BinSteps - k
  {
    if k < BinSteps {
      var next := Step(o, dpi, target, b, j);
      StepAppendsTrial(o, dpi, target, b, j);
      SearchAppends(o, dpi, target, k + 1, next.0, next.1);
      var j' := Search(o, dpi, target, k + 1, next.0, next.1).1;
      assert j'.trials[..|j.trials|] == j'.trials[..|next.1.trials|][..|j.trials|];
    }
  }

  /** The search from trial k on keeps the job invariant and never worsens the best. */
  lemma {:induction false} SearchKeepsJob(o: Oracles, dpi: int, target: int, k: nat, b: Bounds, j: Job)
    requires k <= BinSteps && JobInv(j)
    ensures var j' := Search(o, dpi, target, k, b, j).1;
            JobInv(j') && BestNotWorse(j.best, j'.best)
    decreases BinSteps - k
  {
    if k < BinSteps {
      var next := Step(o, dpi, target, b, j);
      StepKeepsJob(o, dpi, target, b, j);
      SearchKeepsJob(o, dpi, target, k + 1, next.0, next.1);
    }
  }

  /** The search from trial k on keeps the bounds and the segment invariants. */
  lemma {:induction false} SearchKeepsSegment(o: Oracles, dpi: int, target: int, k: nat, b: Bounds, j: Job, start: nat)
    requires k <= BinSteps && BoundsInv(b, k)
    requires start <= |j.trials|
    requires SegmentInv(o, dpi, target, b, j.trials[start..])
    ensures var r := Search(o, dpi, target, k, b, j);
            && start <= |r.1.trials|
            && BoundsInv(r.0, BinSteps)
            && SegmentInv(o, dpi, target, r.0, r.1.trials[start..])
    decreases BinSteps - k
  {
    if k < BinSteps {
      var next := Step(o, dpi, target, b, j);
      StepKeepsBounds(o, dpi, target, b, j, k);
      StepAppendsTrial(o, dpi, target, b, j);
      StepKeepsSegment(o, dpi, target, b, j, k, start);
      SearchAppends(o, dpi, target, k, b, j);
      SearchKeepsSegment(o, dpi, target, k + 1, next.0, next.1, start);
    }
  }

  /** The six trials at one DPI append exactly six trial records, keep the job
      invariant and never worsen the best-so-far. */
  lemma SearchDpiShape(o: Oracles, dpi: int, target: int, j: Job)
    requires JobInv(j)
    ensures |SearchDpi(o, dpi, target, j).1.trials| == |j.trials| + BinSteps
    ensures SearchDpi(o, dpi, target, j).1.trials[..|j.trials|] == j.trials
    ensures JobInv(SearchDpi(o, dpi, target, j).1)
    ensures BestNotWorse(j.best, SearchDpi(o, dpi, target, j).1.best)
  {
    SearchAppends(o, dpi, target, 0, InitialBounds, j);
    SearchKeepsJob(o, dpi, target, 0, InitialBounds, j);
  }

  /** The six trials at one DPI are all at that DPI with qualities in [39, 95], and
      the kept candidate satisfies the segment invariant. */
  lemma SearchDpiSegment(o: Oracles, dpi: int, target: int, j: Job)
    requires JobInv(j)
    ensures |j.trials| <= |SearchDpi(o, dpi, target, j).1.trials|
    ensures var r := SearchDpi(o, dpi, target, j);
            SegmentInv(o, dpi, target, r.0, r.1.trials[|j.trials|..])
  {
    var start := |j.trials|;
    assert j.trials[start..] == [];
    MinWidthValues();
    SearchKeepsSegment(o, dpi, target, 0, InitialBounds, j, start);
  }

  /** The six trials at one DPI: exactly six trial records are appended, all at that
      DPI with qualities in [39, 95]; the candidate is present exactly when one of
      them qualifies, and then it is the last qualifying one, at or under the target,
      with a quality at least that of every qualifying trial at this DPI. */
  lemma SearchDpiFacts(o: Oracles, dpi: int, target: int, j: Job)
    requires JobInv(j)
    ensures |SearchDpi(o, dpi, target, j).1.trials| == |j.trials| + BinSteps
    ensures var r := SearchDpi(o, dpi, target, j);
            var seg := r.1.trials[|j.trials|..];
            && JobInv(r.1)
            && r.1.trials == j.trials + seg
            && BestNotWorse(j.best, r.1.best)
            && (forall i :: 0 <= i < |seg| ==>
                  seg[i].dpi == dpi && seg[i].built == o.build(dpi, seg[i].quality)
                  && QualityFloor - 1 <= seg[i].quality <= QualityCeiling)
            && (r.0.candidate.None? <==> NoneQualify(seg, target))
            && r.0.candidate == LastQualifying(seg, target)
            && (r.0.candidate.Some? ==>
                  var c := r.0.candidate.value;
                  && c.dpi == dpi && c.size <= target
                  && (exists i :: 0 <= i < |seg| && seg[i].quality == c.quality && seg[i].built == Some(c.size))
                  && (forall i :: 0 <= i < |seg| && Qualifies(seg[i], target) ==> seg[i].quality <= c.quality))
  {
    SearchDpiShape(o, dpi, target, j);
    SearchDpiSegment(o, dpi, target, j);
    var r := SearchDpi(o, dpi, target, j);
    var seg := r.1.trials[|j.trials|..];
    assert r.1.trials == r.1.trials[..|j.trials|] + seg;
    SegmentCandidate(o, dpi, target, r.0, seg);
  }

  /** What the segment invariant says about the kept candidate. */
  lemma SegmentCandidate(o: Oracles, dpi: int, target: int, b: Bounds, seg: seq<Trial>)
    requires SegmentInv(o, dpi, target, b, seg)
    ensures b.candidate.None? <==> NoneQualify(seg, target)
    ensures b.candidate.Some? ==>
              var c := b.candidate.value;
              && c.dpi == dpi && c.size <= target
              && (exists i :: 0 <= i < |seg| && seg[i].quality == c.quality && seg[i].built == Some(c.size))
              && (forall i :: 0 <= i < |seg| && Qualifies(seg[i], target) ==> seg[i].quality <= c.quality)
  {
    LastQualifyingFacts(seg, target);
    if b.candidate.Some? {
      var c := b.candidate.value;
      var i :| 0 <= i < |seg| && seg[i].dpi == c.dpi && seg[i].quality == c.quality
               && seg[i].built == Some(c.size);
    }
  }

  // ---------------------------------------------------------------------------
  // Both ends of [39, 95] are queried.

  /** A trial whose build fails or is oversize lowers qHigh to one below its quality. */
  lemma StepWhenNotFitting(o: Oracles, dpi: int, target: int, b: Bounds, j: Job)
    requires o.build(dpi, Mid(b)).None? || o.build(dpi, Mid(b)).value > target
    ensures Step(o, dpi, target, b, j).0 == b.(qHigh := Mid(b) - 1)
  {
  }

  /** A trial whose build fits raises qLow to one above its quality and keeps it. */
  lemma StepWhenFitting(o: Oracles, dpi: int, target: int, b: Bounds, j: Job)
    requires o.build(dpi, Mid(b)).Some? && o.build(dpi, Mid(b)).value <= target
    ensures Step(o, dpi, target, b, j).0 ==
              Bounds(Mid(b) + 1, b.qHigh, Some(Candidate(dpi, Mid(b), o.build(dpi, Mid(b)).value)))
  {
  }

  /** When nothing at this DPI builds within the target (failed or oversize), the
      qualities queried are 67, 53, 46, 42, 40 and then 39: the start bound 40 is not
      a floor. */
  lemma NothingFitsQueries39(o: Oracles, dpi: int, target: int, j: Job)
    requires forall q :: o.build(dpi, q).None? || o.build(dpi, q).value > target
    ensures var r := SearchDpi(o, dpi, target, j);
            var seg := r.1.trials[|j.trials|..];
            && |seg| == 6
            && seg[0].quality == 67 && seg[1].quality == 53 && seg[2].quality == 46
            && seg[3].quality == 42 && seg[4].quality == 40 && seg[5].quality == 39
            && r.0.candidate.None?
  {
    var n := |j.trials|;
    var b0, j0 := InitialBounds, j;
    StepWhenNotFitting(o, dpi, target, b0, j0);
    StepAppendsTrial(o, dpi, target, b0, j0);
    var b1, j1 := Step(o, dpi, target, b0, j0).0, Step(o, dpi, target, b0, j0).1;
    assert b1 == Bounds(40, 66, None) && j1.trials[n].quality == 67;
    StepWhenNotFitting(o, dpi, target, b1, j1);
    StepAppendsTrial(o, dpi, target, b1, j1);
    var b2, j2 := Step(o, dpi, target, b1, j1).0, Step(o, dpi, target, b1, j1).1;
    assert b2 == Bounds(40, 52, None) && j2.trials[n + 1].quality == 53;
    StepWhenNotFitting(o, dpi, target, b2, j2);
    StepAppendsTrial(o, dpi, target, b2, j2);
    var b3, j3 := Step(o, dpi, target, b2, j2).0, Step(o, dpi, target, b2, j2).1;
    assert b3 == Bounds(40, 45, None) && j3.trials[n + 2].quality == 46;
    StepWhenNotFitting(o, dpi, target, b3, j3);
    StepAppendsTrial(o, dpi, target, b3, j3);
    var b4, j4 := Step(o, dpi, target, b3, j3).0, Step(o, dpi, target, b3, j3).1;
    assert b4 == Bounds(40, 41, None) && j4.trials[n + 3].quality == 42;
    StepWhenNotFitting(o, dpi, target, b4, j4);
    StepAppendsTrial(o, dpi, target, b4, j4);
    var b5, j5 := Step(o, dpi, target, b4, j4).0, Step(o, dpi, target, b4, j4).1;
    assert b5 == Bounds(40, 39, None) && j5.trials[n + 4].quality == 40;
    StepWhenNotFitting(o, dpi, target, b5, j5);
    StepAppendsTrial(o, dpi, target, b5, j5);
    var b6, j6 := Step(o, dpi, target, b5, j5).0, Step(o, dpi, target, b5, j5).1;
    assert b6 == Bounds(40, 38, None) && j6.trials[n + 5].quality == 39;
    assert SearchDpi(o, dpi, target, j) == (b6, j6);
    assert j6.trials[n] == j1.trials[n];
    assert j6.trials[n + 1] == j2.trials[n + 1];
    assert j6.trials[n + 2] == j3.trials[n + 2];
    assert j6.trials[n + 3] == j4.trials[n + 3];
    assert j6.trials[n + 4] == j5.trials[n + 4];
  }

  /** When everything at this DPI builds within the target, the qualities queried are
      67, 81, 88, 92, 94 and then 95, and the kept candidate has quality 95. */
  lemma EverythingFitsQueries95(o: Oracles, dpi: int, target: int, j: Job)
    requires forall q :: o.build(dpi, q).Some? && o.build(dpi, q).value <= target
    ensures var r := SearchDpi(o, dpi, target, j);
            var seg := r.1.trials[|j.trials|..];
            && |seg| == 6
            && seg[0].quality == 67 && seg[1].quality == 81 && seg[2].quality == 88
            && seg[3].quality == 92 && seg[4].quality == 94 && seg[5].quality == 95
            && r.0.candidate.Some? && r.0.candidate.value.quality == 95
  {
    var n := |j.trials|;
    var b0, j0 := InitialBounds, j;
    StepWhenFitting(o, dpi, target, b0, j0);
    StepAppendsTrial(o, dpi, target, b0, j0);
    var b1, j1 := Step(o, dpi, target, b0, j0).0, Step(o, dpi, target, b0, j0).1;
    assert b1.qLow == 68 && b1.qHigh == 95 && j1.trials[n].quality == 67;
    StepWhenFitting(o, dpi, target, b1, j1);
    StepAppendsTrial(o, dpi, target, b1, j1);
    var b2, j2 := Step(o, dpi, target, b1, j1).0, Step(o, dpi, target, b1, j1).1;
    assert b2.qLow == 82 && b2.qHigh == 95 && j2.trials[n + 1].quality == 81;
    StepWhenFitting(o, dpi, target, b2, j2);
    StepAppendsTrial(o, dpi, target, b2, j2);
    var b3, j3 := Step(o, dpi, target, b2, j2).0, Step(o, dpi, target, b2, j2).1;
    assert b3.qLow == 89 && b3.qHigh == 95 && j3.trials[n + 2].quality == 88;
    StepWhenFitting(o, dpi, target, b3, j3);
    StepAppendsTrial(o, dpi, target, b3, j3);
    var b4, j4 := Step(o, dpi, target, b3, j3).0, Step(o, dpi, target, b3, j3).1;
    assert b4.qLow == 93 && b4.qHigh == 95 && j4.trials[n + 3].quality == 92;
    StepWhenFitting(o, dpi, target, b4, j4);
    StepAppendsTrial(o, dpi, target, b4, j4);
    var b5, j5 := Step(o, dpi, target, b4, j4).0, Step(o, dpi, target, b4, j4).1;
    assert b5.qLow == 95 && b5.qHigh == 95 && j5.trials[n + 4].quality == 94;
    StepWhenFitting(o, dpi, target, b5, j5);
    StepAppendsTrial(o, dpi, target, b5, j5);
    var b6, j6 := Step(o, dpi, target, b5, j5).0, Step(o, dpi, target, b5, j5).1;
    assert b6.candidate.Some? && b6.candidate.value.quality == 95 && j6.trials[n + 5].quality == 95;
    assert SearchDpi(o, dpi, target, j) == (b6, j6);
    assert j6.trials[n] == j1.trials[n];
    assert j6.trials[n + 1] == j2.trials[n + 1];
    assert j6.trials[n + 2] == j3.trials[n + 2];
    assert j6.trials[n + 3] == j4.trials[n + 3];
    assert j6.trials[n + 4] == j5.trials[n + 4];
  }

  /** A failed build moves the bounds exactly as any oversize build would, and
      unlike a build it never touches the best-so-far or the scratch file. */
  lemma FailureActsAsOversize(o: Oracles, o': Oracles, dpi: int, target: int, b: Bounds, j: Job, size: nat)
    requires o.build(dpi, Mid(b)).None?
    requires o'.build(dpi, Mid(b)) == Some(size) && size > target
    ensures Step(o, dpi, target, b, j).0 == Step(o', dpi, target, b, j).0
    ensures Step(o, dpi, target, b, j).0.qHigh == Mid(b) - 1 && Step(o, dpi, target, b, j).0.qLow == b.qLow
    ensures Step(o, dpi, target, b, j).0.candidate == b.candidate
    ensures Step(o, dpi, target, b, j).1.best == j.best
    ensures Step(o, dpi, target, b, j).1.scratch == j.scratch
  {
  }
}
