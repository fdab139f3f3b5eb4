/**
 * Rate derivation for one disk: two cumulative counter records taken one
 * sampling interval apart become read and write operations per second.
 */
module Iops {

  /** Cumulative operation counters of one disk, as the OS reports them. */
  datatype DiskCounters = DiskCounters(readCount: int, writeCount: int)

  /** A pair of rates, in operations per second. */
  datatype Rates = Rates(read: real, write: real)

  /**
   * The read and write rates between two samples of the same disk taken
   * `interval` seconds apart.  A counter that went down (a reset or a
   * wrap-around) gives a negative rate: nothing is clamped.
   */
  function CalculateIops(prev: DiskCounters, curr: DiskCounters, interval: real): (r: Rates)
    requires interval > 0.0
    // the rate times the interval gives back exactly the counter delta
    ensures r.read * interval == (curr.readCount - prev.readCount) as real
    ensures r.write * interval == (curr.writeCount - prev.writeCount) as real
  {
    Rates((curr.readCount - prev.readCount) as real / interval,
          (curr.writeCount - prev.writeCount) as real / interval)
  }

  /** Each rate has the sign of its counter delta: non-negative when the counter grew or stayed, negative when it fell. */
  lemma RateSign(prev: DiskCounters, curr: DiskCounters, interval: real)
    requires interval > 0.0
    ensures CalculateIops(prev, curr, interval).read >= 0.0 <==> curr.readCount >= prev.readCount
    ensures CalculateIops(prev, curr, interval).write >= 0.0 <==> curr.writeCount >= prev.writeCount
    ensures CalculateIops(prev, curr, interval).read < 0.0 <==> curr.readCount < prev.readCount
    ensures CalculateIops(prev, curr, interval).write < 0.0 <==> curr.writeCount < prev.writeCount
  {
    var r := CalculateIops(prev, curr, interval);
    SignOfQuotient(r.read, interval, (curr.readCount - prev.readCount) as real);
    SignOfQuotient(r.write, interval, (curr.writeCount - prev.writeCount) as real);
  }

  lemma SignOfQuotient(q: real, interval: real, delta: real)
    requires interval > 0.0 && q * interval == delta
    ensures q >= 0.0 <==> delta >= 0.0
  {
    if q < 0.0 {
      assert q * interval < 0.0 * interval;
    } else {
      assert q * interval >= 0.0 * interval;
    }
  }

  /**
   * Worked example over a one-second interval: a disk whose read counter
   * went from 100 to 150 and whose write counter stayed at 50 reads at 50
   * operations per second and writes at 0; one whose write counter went
   * from 0 to 10 writes at 10.
   */
  lemma ExampleOneSecond()
    ensures CalculateIops(DiskCounters(100, 50), DiskCounters(150, 50), 1.0) == Rates(50.0, 0.0)
    ensures CalculateIops(DiskCounters(0, 0), DiskCounters(0, 10), 1.0) == Rates(0.0, 10.0)
  {
  }
}
