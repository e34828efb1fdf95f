/**
 Sample timestamps of hardware-timed batches (instro/daq/daq.py): anchored to
 the wall clock once, then advanced by the sample period.
 */
module DaqTiming {
  import opened Wrappers

  datatype Batch = Batch(dt: int, length: nat)

  function Times(t0: int, dt: int, n: nat): (times: seq<int>)
    ensures |times| == n
    ensures forall i :: 0 <= i < n ==> times[i] == t0 + i * dt
  {
    seq(n, i => t0 + i * dt)
  }

  class HwTimestamper {
    var lastTimestamp: int

    constructor (lastTimestamp: int)
      ensures this.lastTimestamp == lastTimestamp
    {
      this.lastTimestamp := lastTimestamp;
    }

    /** An empty first batch has no last timestamp to anchor to. */
    static method Seed(tWall: int, b: Batch) returns (r: Option<(HwTimestamper, seq<int>)>)
      ensures r.Some? <==> b.length > 0
      ensures r.Some? ==> fresh(r.value.0) && r.value.1 == SeedTimes(tWall, b) && r.value.0.lastTimestamp == tWall
    {
      if b.length == 0 {
        return None;
      }
      var t0 := tWall - b.dt * (b.length - 1);
      var timestamps := Times(t0, b.dt, b.length);
      assert timestamps[b.length - 1] == tWall;
      var stamper := new HwTimestamper(timestamps[|timestamps| - 1]);
      r := Some((stamper, timestamps));
    }

    method NextBatch(b: Batch) returns (r: Option<seq<int>>)
      modifies this
      ensures r.Some? <==> b.length > 0
      ensures r.Some? ==> r.value == NextTimes(old(lastTimestamp), b) && lastTimestamp == r.value[b.length - 1]
      ensures r.None? ==> lastTimestamp == old(lastTimestamp)
    {
      var t0 := lastTimestamp + b.dt;
      var timestamps := Times(t0, b.dt, b.length);
      if timestamps == [] {
        return None;
      }
      lastTimestamp := timestamps[|timestamps| - 1];
      r := Some(timestamps);
    }
  }

  function SeedTimes(tWall: int, b: Batch): seq<int> {
    Times(tWall - b.dt * (b.length - 1), b.dt, b.length)
  }

  function NextTimes(last: int, b: Batch): seq<int> {
    Times(last + b.dt, b.dt, b.length)
  }

  predicate Proper(batches: seq<Batch>) {
    forall i :: 0 <= i < |batches| ==> batches[i].length > 0
  }

  /** All timestamps of a seed batch and the batches after it. */
  function Timeline(tWall: int, seed: Batch, batches: seq<Batch>): (all: seq<int>)
    requires seed.length > 0 && Proper(batches)
    ensures all != []
  {
    if batches == [] then SeedTimes(tWall, seed)
    else
      var before := Timeline(tWall, seed, batches[..|batches| - 1]);
      before + NextTimes(before[|before| - 1], batches[|batches| - 1])
  }

  // The spacing each sample was taken at, sample by sample.
  function Spacing(seed: Batch, batches: seq<Batch>): seq<int> {
    if batches == [] then seq(seed.length, _ => seed.dt)
    else Spacing(seed, batches[..|batches| - 1]) + seq(batches[|batches| - 1].length, _ => batches[|batches| - 1].dt)
  }

  lemma TimesGap(t0: int, dt: int, n: nat, i: nat)
    requires 0 < i < n
    ensures Times(t0, dt, n)[i] - Times(t0, dt, n)[i - 1] == dt
  {
    assert i * dt == (i - 1) * dt + dt;
  }

  predicate GapAt(all: seq<int>, gaps: seq<int>, i: nat)
    requires 0 < i < |all| == |gaps|
  {
    all[i] == all[i - 1] + gaps[i]
  }

  ghost predicate Gapped(all: seq<int>, gaps: seq<int>) {
    |all| == |gaps| && forall i :: 0 < i < |all| ==> GapAt(all, gaps, i)
  }

  lemma GappedSnoc(before: seq<int>, gaps: seq<int>, b: Batch)
    requires before != [] && Gapped(before, gaps)
    ensures Gapped(before + NextTimes(before[|before| - 1], b), gaps + seq(b.length, _ => b.dt))
  {
    var next := NextTimes(before[|before| - 1], b);
    var all, longer := before + next, gaps + seq(b.length, _ => b.dt);
    forall i | 0 < i < |all| ensures GapAt(all, longer, i) {
      if i < |before| {
        assert GapAt(before, gaps, i);
      } else if i > |before| {
        TimesGap(before[|before| - 1] + b.dt, b.dt, b.length, i - |before|);
      } else {
        assert next[0] == before[i - 1] + b.dt;
      }
    }
  }

  /** Every gap is the spacing of the later sample's batch, and the seed batch ends at the wall time. */
  lemma {:induction false} GapsAreSpacings(tWall: int, seed: Batch, batches: seq<Batch>)
    requires seed.length > 0 && Proper(batches)
    ensures Gapped(Timeline(tWall, seed, batches), Spacing(seed, batches))
    ensures |Timeline(tWall, seed, batches)| >= seed.length
    ensures Timeline(tWall, seed, batches)[seed.length - 1] == tWall
  {
    if batches == [] {
      var t0 := tWall - seed.dt * (seed.length - 1);
      forall i | 0 < i < seed.length ensures SeedTimes(tWall, seed)[i] == SeedTimes(tWall, seed)[i - 1] + seed.dt {
        TimesGap(t0, seed.dt, seed.length, i);
      }
    } else {
      var front, last := batches[..|batches| - 1], batches[|batches| - 1];
      GapsAreSpacings(tWall, seed, front);
      GappedSnoc(Timeline(tWall, seed, front), Spacing(seed, front), last);
    }
  }

  /**
   Over any seed batch and any number of following ones with positive
   spacings, the concatenated timestamps increase strictly, and the seed batch
   ends at the wall time it was read.
   */
  lemma {:induction false} TimelineIncreases(tWall: int, seed: Batch, batches: seq<Batch>, i: nat, j: nat)
    requires seed.length > 0 && Proper(batches)
    requires seed.dt > 0 && forall k :: 0 <= k < |batches| ==> batches[k].dt > 0
    requires i < j < |Timeline(tWall, seed, batches)|
    ensures Timeline(tWall, seed, batches)[i] < Timeline(tWall, seed, batches)[j]
    decreases j
  {
    GapsAreSpacings(tWall, seed, batches);
    SpacingsPositive(seed, batches);
    assert GapAt(Timeline(tWall, seed, batches), Spacing(seed, batches), j);
    if i < j - 1 {
      TimelineIncreases(tWall, seed, batches, i, j - 1);
    }
  }

  lemma {:induction false} SpacingsPositive(seed: Batch, batches: seq<Batch>)
    requires seed.dt > 0 && forall k :: 0 <= k < |batches| ==> batches[k].dt > 0
    ensures forall k :: 0 <= k < |Spacing(seed, batches)| ==> Spacing(seed, batches)[k] > 0
  {
    if batches != [] {
      SpacingsPositive(seed, batches[..|batches| - 1]);
    }
  }
}
