/** The observable history of one compression job: the oracles that stand for
    rendering and building, the record of every quality trial, and reference
    definitions (smallest size, record-breaking sizes, last qualifying trial)
    against which the search is proved. */
module Trials {
  import opened Prelude

  /** The foreign collaborators of the search. `render(dpi)` tells whether
      rasterising every page at `dpi` succeeds; `build(dpi, q)` is the byte size of
      the document assembled from those rasters at JPEG quality `q`, or None when
      encoding or assembly raises. Rendering is deterministic per DPI, so a build
      depends only on the DPI and the quality. */
  datatype Oracles = Oracles(render: int -> bool, build: (int, int) -> Option<nat>)

  /** One quality trial: the attempt number handed to the progress callback, the
      DPI and quality tried, and what the build gave. */
  datatype Trial = Trial(attempt: nat, dpi: int, quality: int, built: Option<nat>)

  /** A document kept as the answer for one resolution. */
  datatype Candidate = Candidate(dpi: int, quality: int, size: nat)

  /** Job-wide state: the attempt counter, the smallest size so far (None plays the
      role of the source's infinity), every trial in order, and every size written
      to the scratch file in order. */
  datatype Job = Job(attempt: nat, best: Option<nat>, trials: seq<Trial>, scratch: seq<nat>)

  const EmptyJob: Job := Job(0, None, [], [])

  /** A built document at or under the target. */
  predicate Qualifies(t: Trial, target: int)
  {
    t.built.Some? && t.built.value <= target
  }

  ghost predicate NoneQualify(ts: seq<Trial>, target: int)
  {
    forall i :: 0 <= i < |ts| ==> !Qualifies(ts[i], target)
  }

  /** The trials are numbered 1, 2, 3, ... as the progress callback is told. */
  ghost predicate AttemptsInOrder(ts: seq<Trial>)
  {
    forall i :: 0 <= i < |ts| ==> ts[i].attempt == i + 1
  }

  /** Appending the trial numbered one past the last keeps the numbering. */
  lemma AttemptsInOrderSnoc(ts: seq<Trial>, t: Trial)
    requires AttemptsInOrder(ts) && t.attempt == |ts| + 1
    ensures AttemptsInOrder(ts + [t])
  {
    forall i | 0 <= i < |ts| + 1 ensures (ts + [t])[i].attempt == i + 1 {
      if i < |ts| { assert (ts + [t])[i] == ts[i]; }
    }
  }

  /** A size beats the best so far only when strictly smaller. */
  predicate Improves(size: nat, best: Option<nat>)
  {
    best.None? || size < best.value
  }

  /** Best-so-far never gets worse. */
  ghost predicate BestNotWorse(before: Option<nat>, after: Option<nat>)
  {
    before.Some? ==> after.Some? && after.value <= before.value
  }

  function SizeOf(t: Trial): seq<nat>
  {
    if t.built.Some? then [t.built.value] else []
  }

  /** The sizes of the successful builds, in trial order. */
  function Sizes(ts: seq<Trial>): seq<nat>
    decreases |ts|
  {
    if ts == [] then [] else Sizes(ts[..|ts| - 1]) + SizeOf(ts[|ts| - 1])
  }

  lemma SizesSnoc(ts: seq<Trial>, t: Trial)
    ensures Sizes(ts + [t]) == Sizes(ts) + SizeOf(t)
  {
    assert (ts + [t])[..|ts|] == ts;
  }

  /** A size occurs in Sizes exactly when some trial built it. */
  lemma {:induction false} SizesAreBuilt(ts: seq<Trial>)
    ensures forall x :: x in Sizes(ts) <==> exists i :: 0 <= i < |ts| && ts[i].built == Some(x)
    decreases |ts|
  {
    if ts != [] {
      var init := ts[..|ts| - 1];
      SizesAreBuilt(init);
      assert ts == init + [ts[|ts| - 1]];
      forall x
        ensures x in Sizes(ts) <==> exists i :: 0 <= i < |ts| && ts[i].built == Some(x)
      {
        if x in Sizes(ts) {
          if x in Sizes(init) {
            var i :| 0 <= i < |init| && init[i].built == Some(x);
            assert ts[i] == init[i];
          } else {
            assert ts[|ts| - 1].built == Some(x);
          }
        }
        if exists i :: 0 <= i < |ts| && ts[i].built == Some(x) {
          var i :| 0 <= i < |ts| && ts[i].built == Some(x);
          if i < |init| {
            assert init[i] == ts[i];
          }
        }
      }
    }
  }

  /** How many trials were made at `dpi`. */
  function CountAt(ts: seq<Trial>, dpi: int): nat
    decreases |ts|
  {
    if ts == [] then 0
    else CountAt(ts[..|ts| - 1], dpi) + (if ts[|ts| - 1].dpi == dpi then 1 else 0)
  }

  /** Counting over a concatenation adds the counts of the parts. */
  lemma {:induction false} CountAtAppend(a: seq<Trial>, b: seq<Trial>, dpi: int)
    ensures CountAt(a + b, dpi) == CountAt(a, dpi) + CountAt(b, dpi)
    decreases |b|
  {
    if b == [] {
      assert a + b == a;
    } else {
      var init := b[..|b| - 1];
      assert (a + b)[..|a + b| - 1] == a + init;
      assert (a + b)[|a + b| - 1] == b[|b| - 1];
      CountAtAppend(a, init, dpi);
    }
  }

  /** A segment whose trials are all at one DPI counts all of them there and none
      anywhere else. */
  lemma {:induction false} CountAtUniform(seg: seq<Trial>, at: int, dpi: int)
    requires forall i :: 0 <= i < |seg| ==> seg[i].dpi == at
    ensures CountAt(seg, dpi) == if dpi == at then |seg| else 0
    decreases |seg|
  {
    if seg != [] {
      CountAtUniform(seg[..|seg| - 1], at, dpi);
    }
  }

  /** When no trial qualifies, every built size is over the target. */
  lemma NoneQualifyMeansAllOver(ts: seq<Trial>, target: int)
    requires NoneQualify(ts, target)
    ensures forall x :: x in Sizes(ts) ==> x > target
  {
    SizesAreBuilt(ts);
    forall x | x in Sizes(ts) ensures x > target {
      var i :| 0 <= i < |ts| && ts[i].built == Some(x);
      assert !Qualifies(ts[i], target);
    }
  }

  /** The smallest element, or None for the empty sequence. */
  function MinOf(s: seq<nat>): Option<nat>
    decreases |s|
  {
    if s == [] then None
    else match MinOf(s[1..])
      case None => Some(s[0])
      case Some(m) => Some(if s[0] <= m then s[0] else m)
  }

  lemma {:induction false} MinOfIsLeast(s: seq<nat>)
    ensures MinOf(s).None? <==> s == []
    ensures MinOf(s).Some? ==> MinOf(s).value in s && forall x :: x in s ==> MinOf(s).value <= x
    decreases |s|
  {
    if s != [] {
      MinOfIsLeast(s[1..]);
      assert s == [s[0]] + s[1..];
    }
  }

  /** Appending one size updates the minimum exactly as the search updates its best. */
  lemma {:induction false} MinOfSnoc(s: seq<nat>, x: nat)
    ensures MinOf(s + [x]) == if Improves(x, MinOf(s)) then Some(x) else MinOf(s)
    decreases |s|
  {
    if s == [] {
      assert s + [x] == [x];
    } else {
      assert (s + [x])[1..] == s[1..] + [x];
      MinOfSnoc(s[1..], x);
    }
  }

  /** The record-breaking sizes: each size that is strictly smaller than every size
      before it, in order. */
  function Records(s: seq<nat>): seq<nat>
    decreases |s|
  {
    if s == [] then []
    else
      var init := s[..|s| - 1];
      Records(init) + (if Improves(s[|s| - 1], MinOf(init)) then [s[|s| - 1]] else [])
  }

  lemma RecordsSnoc(s: seq<nat>, x: nat)
    ensures Records(s + [x]) == Records(s) + (if Improves(x, MinOf(s)) then [x] else [])
  {
    assert (s + [x])[..|s|] == s;
  }

  /** The record-breaking sizes strictly decrease, and the last one is the minimum. */
  lemma {:induction false} RecordsDescendToMin(s: seq<nat>)
    ensures StrictlyDescending(Records(s))
    ensures Records(s) == [] <==> s == []
    ensures Records(s) != [] ==> MinOf(s) == Some(Records(s)[|Records(s)| - 1])
    ensures |Records(s)| <= |s|
    decreases |s|
  {
    if s != [] {
      var init := s[..|s| - 1];
      var x := s[|s| - 1];
      assert s == init + [x];
      RecordsDescendToMin(init);
      MinOfSnoc(init, x);
      if Improves(x, MinOf(init)) {
        DescendingSnoc(Records(init), x);
      }
    }
  }

  /** The candidate the last qualifying trial of a segment would leave behind. */
  function LastQualifying(seg: seq<Trial>, target: int): Option<Candidate>
    decreases |seg|
  {
    if seg == [] then None
    else
      var t := seg[|seg| - 1];
      if Qualifies(t, target) then Some(Candidate(t.dpi, t.quality, t.built.value))
      else LastQualifying(seg[..|seg| - 1], target)
  }

  lemma LastQualifyingSnoc(seg: seq<Trial>, t: Trial, target: int)
    ensures LastQualifying(seg + [t], target) ==
              if Qualifies(t, target) then Some(Candidate(t.dpi, t.quality, t.built.value))
              else LastQualifying(seg, target)
  {
    assert (seg + [t])[..|seg|] == seg;
  }

  /** There is a last qualifying trial exactly when some trial qualifies, and it is
      one of the segment's trials, at or under the target. */
  lemma {:induction false} LastQualifyingFacts(seg: seq<Trial>, target: int)
    ensures LastQualifying(seg, target).None? <==> NoneQualify(seg, target)
    ensures LastQualifying(seg, target).Some? ==>
              var c := LastQualifying(seg, target).value;
              c.size <= target &&
              exists i :: 0 <= i < |seg| && seg[i].dpi == c.dpi && seg[i].quality == c.quality
                          && seg[i].built == Some(c.size)
    decreases |seg|
  {
    if seg != [] {
      var init := seg[..|seg| - 1];
      LastQualifyingFacts(init, target);
      assert seg == init + [seg[|seg| - 1]];
      if !Qualifies(seg[|seg| - 1], target) {
        if LastQualifying(init, target).Some? {
          var c := LastQualifying(init, target).value;
          var i :| 0 <= i < |init| && init[i].dpi == c.dpi && init[i].quality == c.quality
                   && init[i].built == Some(c.size);
          assert seg[i] == init[i];
        } else {
          assert NoneQualify(seg, target) by {
            forall i | 0 <= i < |seg| ensures !Qualifies(seg[i], target) {
              if i < |init| { assert seg[i] == init[i]; }
            }
          }
        }
      }
    }
  }
}
