/**
 * The per-drive part of one monitoring cycle: for every drive present in
 * both the previous and the current snapshot, derive its rates and fold them
 * into the running per-drive maximum; then the current snapshot becomes the
 * previous one.
 */
module Tracker {
  import opened Iops

  /** A device's counters as one snapshot reports them, keyed by drive name. */
  type Snapshot = map<string, DiskCounters>

  /** What is shown for one drive in one cycle: its rates and its running maxima. */
  datatype DriveSample = DriveSample(readIops: real, writeIops: real, maxReadIops: real, maxWriteIops: real)

  /** The larger of two rates; the first when they are equal. */
  function RealMax(a: real, b: real): (r: real)
    ensures r >= a && r >= b
    ensures r == a || r == b
  {
    if b > a then b else a
  }

  /** Component-wise maximum of two rate pairs. */
  function MaxRates(a: Rates, b: Rates): (r: Rates)
    ensures r.read >= a.read && r.read >= b.read && (r.read == a.read || r.read == b.read)
    ensures r.write >= a.write && r.write >= b.write && (r.write == a.write || r.write == b.write)
  {
    Rates(RealMax(a.read, b.read), RealMax(a.write, b.write))
  }

  /** Does the drive get a rate this cycle? Only when both snapshots have it. */
  predicate Observed(prev: Snapshot, curr: Snapshot, d: string)
  {
    d in prev && d in curr
  }

  /**
   * The running maxima after one cycle.  A drive observed for the first time
   * is seeded with its current rates; one already tracked keeps, per
   * component, the larger of its old maximum and its current rate; every
   * other entry is kept as it was.
   */
  function NextMax(m: map<string, Rates>, prev: Snapshot, curr: Snapshot, interval: real): (m': map<string, Rates>)
    requires interval > 0.0
    // entries are only ever added, and only for drives observed this cycle
    ensures m'.Keys == m.Keys + (prev.Keys * curr.Keys)
  {
    map d | d in m.Keys + (prev.Keys * curr.Keys) ::
      if Observed(prev, curr, d) then
        var r := CalculateIops(prev[d], curr[d], interval);
        if d in m then MaxRates(m[d], r) else r
      else m[d]
  }

  /** A drive observed for the first time is seeded with its current rates. */
  lemma FirstObservationSeeds(m: map<string, Rates>, prev: Snapshot, curr: Snapshot, interval: real, d: string)
    requires interval > 0.0 && Observed(prev, curr, d) && d !in m
    ensures d in NextMax(m, prev, curr, interval)
    ensures NextMax(m, prev, curr, interval)[d] == CalculateIops(prev[d], curr[d], interval)
  {
  }

  /**
   * A drive observed again keeps, per component, the larger of its old
   * maximum and its current rate: the result is at least both and is one of them.
   */
  lemma LaterObservationTakesMax(m: map<string, Rates>, prev: Snapshot, curr: Snapshot, interval: real, d: string)
    requires interval > 0.0 && Observed(prev, curr, d) && d in m
    ensures var m', r := NextMax(m, prev, curr, interval), CalculateIops(prev[d], curr[d], interval);
      && d in m'
      && m'[d].read >= m[d].read && m'[d].read >= r.read && (m'[d].read == m[d].read || m'[d].read == r.read)
      && m'[d].write >= m[d].write && m'[d].write >= r.write && (m'[d].write == m[d].write || m'[d].write == r.write)
  {
  }

  /** An observed drive's maximum is at least the rates just computed. */
  lemma MaxCoversCurrentRates(m: map<string, Rates>, prev: Snapshot, curr: Snapshot, interval: real, d: string)
    requires interval > 0.0 && Observed(prev, curr, d)
    ensures var m', r := NextMax(m, prev, curr, interval), CalculateIops(prev[d], curr[d], interval);
      d in m' && m'[d].read >= r.read && m'[d].write >= r.write
  {
  }

  /** A tracked maximum never decreases and is never removed. */
  lemma MaxNeverDecreases(m: map<string, Rates>, prev: Snapshot, curr: Snapshot, interval: real, d: string)
    requires interval > 0.0 && d in m
    ensures var m' := NextMax(m, prev, curr, interval);
      d in m' && m'[d].read >= m[d].read && m'[d].write >= m[d].write
  {
  }

  /**
   * A drive missing from either snapshot gets no rate: its entry is neither
   * created nor changed.
   */
  lemma UnobservedUntouched(m: map<string, Rates>, prev: Snapshot, curr: Snapshot, interval: real, d: string)
    requires interval > 0.0 && !Observed(prev, curr, d)
    ensures var m' := NextMax(m, prev, curr, interval);
      (d in m' <==> d in m) && (d in m ==> m'[d] == m[d])
  {
  }

  /** The snapshot restricted to the drives in `ds`. */
  function Restrict(s: Snapshot, ds: set<string>): (r: Snapshot)
    ensures r.Keys == s.Keys * ds
    ensures forall d :: d in r ==> r[d] == s[d]
  {
    map d | d in s.Keys * ds :: s[d]
  }

  /**
   * The state the sampling loop carries from one cycle to the next: the
   * previous device snapshot and the running maxima per drive.
   */
  class DiskMonitor {
    var previousIo: Snapshot
    var maxIops: map<string, Rates>

    /** Starts with the seed snapshot taken before the loop and no maxima. */
    constructor (initialIo: Snapshot)
      ensures previousIo == initialIo && maxIops == map[]
    {
      previousIo := initialIo;
      maxIops := map[];
    }

    /**
     * One cycle's drive work: rates and maxima for every drive present in
     * both snapshots, then the current snapshot replaces the previous one.
     * Returns the samples shown for the drives that got a rate.
     */
    method Step(currentIo: Snapshot, interval: real) returns (samples: map<string, DriveSample>)
      requires interval > 0.0
      modifies this
      ensures maxIops == NextMax(old(maxIops), old(previousIo), currentIo, interval)
      ensures previousIo == currentIo
      ensures samples.Keys == old(previousIo).Keys * currentIo.Keys
      ensures forall d :: d in samples ==>
        var r := CalculateIops(old(previousIo)[d], currentIo[d], interval);
        samples[d] == DriveSample(r.read, r.write, maxIops[d].read, maxIops[d].write)
    {
      ghost var m0 := maxIops;
      var remaining := currentIo.Keys;
      ghost var visited: set<string> := {};
      samples := map[];
      while remaining != {}
        invariant remaining !! visited && remaining + visited == currentIo.Keys
        invariant previousIo == old(previousIo)
        invariant maxIops == NextMax(m0, previousIo, Restrict(currentIo, visited), interval)
        invariant samples.Keys == previousIo.Keys * visited
        invariant forall d :: d in samples ==>
          var r := CalculateIops(previousIo[d], currentIo[d], interval);
          samples[d] == DriveSample(r.read, r.write, maxIops[d].read, maxIops[d].write)
        decreases remaining
      {
        var drive :| drive in remaining;
        ghost var before := maxIops;
        if drive in previousIo {
          var rates := CalculateIops(previousIo[drive], currentIo[drive], interval);
          if drive !in maxIops {
            maxIops := maxIops[drive := rates];
          } else {
            maxIops := maxIops[drive := Rates(RealMax(maxIops[drive].read, rates.read),
                                              RealMax(maxIops[drive].write, rates.write))];
          }
          samples := samples[drive := DriveSample(rates.read, rates.write, maxIops[drive].read, maxIops[drive].write)];
        }
        remaining := remaining - {drive};
        visited := visited + {drive};
        StepOneDrive(m0, before, previousIo, currentIo, interval, visited - {drive}, drive, maxIops);
      }
      assert Restrict(currentIo, visited) == currentIo;
      previousIo := currentIo;
    }

    /**
     * The sampling loop's drive work over a finite run of snapshots, one
     * cycle per snapshot, in order.
     */
    method RunCycles(snapshots: seq<Snapshot>, interval: real)
      requires interval > 0.0
      modifies this
      ensures maxIops == Run(old(maxIops), old(previousIo), snapshots, interval)
      ensures previousIo == if snapshots == [] then old(previousIo) else snapshots[|snapshots| - 1]
    {
      for i := 0 to |snapshots|
        invariant Run(maxIops, previousIo, snapshots[i..], interval) == Run(old(maxIops), old(previousIo), snapshots, interval)
        invariant previousIo == if i == 0 then old(previousIo) else snapshots[i - 1]
      {
        assert snapshots[i..][0] == snapshots[i] && snapshots[i..][1..] == snapshots[i + 1..];
        var samples := Step(snapshots[i], interval);
      }
    }
  }

  /** Visiting one more drive extends NextMax over the restricted snapshot by that drive. */
  lemma StepOneDrive(m0: map<string, Rates>, before: map<string, Rates>, prev: Snapshot, curr: Snapshot,
                     interval: real, done: set<string>, drive: string, after: map<string, Rates>)
    requires interval > 0.0 && drive in curr && drive !in done
    requires before == NextMax(m0, prev, Restrict(curr, done), interval)
    requires drive !in prev ==> after == before
    requires drive in prev ==>
      var r := CalculateIops(prev[drive], curr[drive], interval);
      after == before[drive := if drive in before then MaxRates(before[drive], r) else r]
    ensures after == NextMax(m0, prev, Restrict(curr, done + {drive}), interval)
  {
    var target := NextMax(m0, prev, Restrict(curr, done + {drive}), interval);
    assert after.Keys == target.Keys;
    forall d | d in after
      ensures after[d] == target[d]
    {
    }
  }

  /** The running maxima after one cycle per snapshot in `snaps`, starting from `prev`. */
  function Run(m: map<string, Rates>, prev: Snapshot, snaps: seq<Snapshot>, interval: real): (r: map<string, Rates>)
    requires interval > 0.0
    // no tracked drive is ever dropped, and no maximum ever decreases
    ensures m.Keys <= r.Keys
    ensures forall d :: d in m ==> r[d].read >= m[d].read && r[d].write >= m[d].write
    decreases |snaps|
  {
    if snaps == [] then m
    else
      var m1 := NextMax(m, prev, snaps[0], interval);
      NextMaxKeepsMaxima(m, prev, snaps[0], interval);
      Run(m1, snaps[0], snaps[1..], interval)
  }

  lemma NextMaxKeepsMaxima(m: map<string, Rates>, prev: Snapshot, curr: Snapshot, interval: real)
    requires interval > 0.0
    ensures forall d :: d in m ==>
      NextMax(m, prev, curr, interval)[d].read >= m[d].read && NextMax(m, prev, curr, interval)[d].write >= m[d].write
  {
    forall d | d in m
      ensures NextMax(m, prev, curr, interval)[d].read >= m[d].read
      ensures NextMax(m, prev, curr, interval)[d].write >= m[d].write
    {
      MaxNeverDecreases(m, prev, curr, interval, d);
    }
  }

  /** The rates computed for drive `d`, one per cycle in which both snapshots had it. */
  function Observations(prev: Snapshot, snaps: seq<Snapshot>, d: string, interval: real): seq<Rates>
    requires interval > 0.0
    decreases |snaps|
  {
    if snaps == [] then []
    else (if Observed(prev, snaps[0], d) then [CalculateIops(prev[d], snaps[0][d], interval)] else [])
         + Observations(snaps[0], snaps[1..], d, interval)
  }

  /** Left fold of MaxRates over a non-empty sequence of rates. */
  function RunningMax(s: seq<Rates>): Rates
    requires s != []
    decreases |s|
  {
    if |s| == 1 then s[0] else MaxRates(RunningMax(s[..|s| - 1]), s[|s| - 1])
  }

  /** The fold is the true maximum: at least every element, and equal to one, per component. */
  lemma {:induction false} RunningMaxIsMaximum(s: seq<Rates>)
    requires s != []
    ensures forall i :: 0 <= i < |s| ==> RunningMax(s).read >= s[i].read && RunningMax(s).write >= s[i].write
    ensures exists i :: 0 <= i < |s| && RunningMax(s).read == s[i].read
    ensures exists i :: 0 <= i < |s| && RunningMax(s).write == s[i].write
    decreases |s|
  {
    if |s| == 1 {
      assert RunningMax(s).read == s[0].read && RunningMax(s).write == s[0].write;
    } else {
      var init, last := s[..|s| - 1], s[|s| - 1];
      RunningMaxIsMaximum(init);
      var r := RunningMax(init);
      assert RunningMax(s) == MaxRates(r, last);
      var i :| 0 <= i < |init| && r.read == init[i].read;
      var j :| 0 <= j < |init| && r.write == init[j].write;
      var wr := if last.read > r.read then |s| - 1 else i;
      var ww := if last.write > r.write then |s| - 1 else j;
      assert init[i] == s[i] && init[j] == s[j];
      assert RunningMax(s).read == s[wr].read;
      assert RunningMax(s).write == s[ww].write;
      forall k | 0 <= k < |s|
        ensures RunningMax(s).read >= s[k].read && RunningMax(s).write >= s[k].write
      {
        if k < |s| - 1 {
          assert init[k] == s[k];
        }
      }
    }
  }

  /** Folding from an already folded prefix gives the fold of the whole. */
  lemma {:induction false} RunningMaxRestart(a: seq<Rates>, b: seq<Rates>)
    requires a != []
    ensures RunningMax([RunningMax(a)] + b) == RunningMax(a + b)
    decreases |b|
  {
    if b != [] {
      var b', y := b[..|b| - 1], b[|b| - 1];
      RunningMaxRestart(a, b');
      assert ([RunningMax(a)] + b)[..|b|] == [RunningMax(a)] + b';
      assert (a + b)[..|a + b| - 1] == a + b';
    } else {
      assert a + b == a;
    }
  }

  /** Everything drive `d`'s maximum is taken over: its earlier maximum, if any, and every rate observed. */
  function Seen(m: map<string, Rates>, prev: Snapshot, snaps: seq<Snapshot>, d: string, interval: real): seq<Rates>
    requires interval > 0.0
  {
    (if d in m then [m[d]] else []) + Observations(prev, snaps, d, interval)
  }

  /** One cycle moves what is seen into the maximum without changing the overall fold. */
  lemma OneCycleSeen(m: map<string, Rates>, prev: Snapshot, snaps: seq<Snapshot>, interval: real, d: string)
    requires interval > 0.0 && snaps != []
    ensures var m1 := NextMax(m, prev, snaps[0], interval);
      var s, s1 := Seen(m, prev, snaps, d, interval), Seen(m1, snaps[0], snaps[1..], d, interval);
      && (s1 == [] <==> s == [])
      && (s != [] ==> RunningMax(s1) == RunningMax(s))
  {
    var curr := snaps[0];
    var m1 := NextMax(m, prev, curr, interval);
    var init := if d in m then [m[d]] else [];
    var later := Observations(curr, snaps[1..], d, interval);
    if Observed(prev, curr, d) {
      var r := CalculateIops(prev[d], curr[d], interval);
      assert Observations(prev, snaps, d, interval) == [r] + later;
      assert init + [r] != [];
      if d in m {
        assert (init + [r])[..1] == init;
      } else {
        assert init + [r] == [r];
      }
      assert m1[d] == RunningMax(init + [r]);
      assert Seen(m1, curr, snaps[1..], d, interval) == [RunningMax(init + [r])] + later;
      RunningMaxRestart(init + [r], later);
      assert init + ([r] + later) == (init + [r]) + later;
    } else {
      assert Observations(prev, snaps, d, interval) == later;
      assert (d in m1 <==> d in m) && (d in m ==> m1[d] == m[d]);
    }
  }

  /**
   * Over any run of cycles, a drive's entry exists exactly when it was
   * tracked before or observed at least once, and it is then the
   * component-wise maximum of the earlier maximum and every rate observed.
   */
  lemma {:induction false} RunTracksTrueMaximum(m: map<string, Rates>, prev: Snapshot, snaps: seq<Snapshot>, interval: real, d: string)
    requires interval > 0.0
    ensures var seen := Seen(m, prev, snaps, d, interval);
      && (d in Run(m, prev, snaps, interval) <==> seen != [])
      && (seen != [] ==> Run(m, prev, snaps, interval)[d] == RunningMax(seen))
    decreases |snaps|
  {
    if snaps == [] {
      var init := if d in m then [m[d]] else [];
      assert Seen(m, prev, snaps, d, interval) == init + [] == init;
      if d in m {
        assert RunningMax(init) == m[d];
      }
    } else {
      var m1 := NextMax(m, prev, snaps[0], interval);
      assert Run(m, prev, snaps, interval) == Run(m1, snaps[0], snaps[1..], interval);
      RunTracksTrueMaximum(m1, snaps[0], snaps[1..], interval, d);
      OneCycleSeen(m, prev, snaps, interval, d);
    }
  }

  /**
   * A drive that first appears in one snapshot gets no rate in that cycle;
   * because that snapshot becomes the previous one, its maximum is seeded
   * with its rates in the next cycle.
   */
  lemma SeededOneCycleLater(m: map<string, Rates>, prev: Snapshot, curr1: Snapshot, curr2: Snapshot, interval: real, d: string)
    requires interval > 0.0
    requires d !in m && d !in prev && d in curr1 && d in curr2
    ensures d !in NextMax(m, prev, curr1, interval)
    ensures var m2 := NextMax(NextMax(m, prev, curr1, interval), curr1, curr2, interval);
      d in m2 && m2[d] == CalculateIops(curr1[d], curr2[d], interval)
  {
  }

  /**
   * Worked example: drive "sda" goes 100 to 150 reads in the first second and
   * again 50 more in the next; drive "sdb" only writes 10.  After two cycles
   * the read maximum of "sda" is still 50.
   */
  lemma ExampleTwoCycles()
    ensures var s0 := map["sda" := DiskCounters(100, 50), "sdb" := DiskCounters(0, 0)];
      var s1 := map["sda" := DiskCounters(150, 50), "sdb" := DiskCounters(0, 10)];
      var s2 := map["sda" := DiskCounters(200, 50), "sdb" := DiskCounters(0, 20)];
      var m1 := NextMax(map[], s0, s1, 1.0);
      var m2 := NextMax(m1, s1, s2, 1.0);
      && "sda" in m1 && m1["sda"] == Rates(50.0, 0.0)
      && "sdb" in m1 && m1["sdb"] == Rates(0.0, 10.0)
      && "sda" in m2 && m2["sda"] == Rates(50.0, 0.0)
  {
    var s0 := map["sda" := DiskCounters(100, 50), "sdb" := DiskCounters(0, 0)];
    var s1 := map["sda" := DiskCounters(150, 50), "sdb" := DiskCounters(0, 10)];
    var s2 := map["sda" := DiskCounters(200, 50), "sdb" := DiskCounters(0, 20)];
    assert CalculateIops(s0["sda"], s1["sda"], 1.0) == Rates(50.0, 0.0);
    assert CalculateIops(s0["sdb"], s1["sdb"], 1.0) == Rates(0.0, 10.0);
    assert CalculateIops(s1["sda"], s2["sda"], 1.0) == Rates(50.0, 0.0);
    var m1 := NextMax(map[], s0, s1, 1.0);
    assert m1["sda"] == Rates(50.0, 0.0);
    assert MaxRates(m1["sda"], Rates(50.0, 0.0)) == Rates(50.0, 0.0);
  }
}
