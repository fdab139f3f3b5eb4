# Disk IOPS monitor: sampling and ranking core

A Dafny model of the logic inside `src/pulse.py`, a terminal tool that samples
per-disk operation counters and per-process I/O byte counters once per
interval. Each cycle it derives read/write IOPS per disk, keeps a running
maximum per disk, and lists the top-N processes by cumulative bytes. The OS
counter source, the terminal and the clock are abstracted away: snapshots and
process enumerations are inputs.

- `Iops.dfy` (module `Iops`): `calculate_iops` as a pure function over exact
  `real` rates and `int` counters.
- `Ranking.dfy` (module `Ranking`): `get_top_io_processes`. Each enumerated
  process is a `Fetch`, either `Ok(pid, name, readBytes, writeBytes)` or
  `Unavailable` (no such process, access denied, zombie). A method with the
  source's append loop collects the readable ones. `sorted(..., reverse=True)[:n]`
  is `TopByTotal`, a stable insertion sort on the total followed by a prefix.
  Stability is stated per total: for every total `k`, the entries with total `k`
  keep their enumeration order (`WithTotal`).
- `Tracker.dfy` (module `Tracker`): the per-drive block of
  `monitor_all_disk_iops`. The class `DiskMonitor` holds `previousIo` and
  `maxIops` and updates them in place. `Step` is one cycle's drive work (the
  loop at lines 41-48 and the hand-off at line 60). `RunCycles` is the sampling
  loop over a finite list of snapshots. `NextMax` and `Run` are the
  specification functions these are proved against.

## Model

| member | source | states |
|---|---|---|
| `Iops.CalculateIops` | src/pulse.py:9-12 | rate × interval equals the counter delta exactly, for read and for write; nothing is clamped |
| `Iops.RateSign` | src/pulse.py:9-12 | a rate is ≥ 0 iff its counter did not decrease, and < 0 iff it decreased (negative rates pass through) |
| `Iops.ExampleOneSecond` | src/pulse.py:9-12 | 100→150 reads and 50→50 writes over 1 s give (50, 0); 0→10 writes give (0, 10) |
| `Ranking.EntryOf` | src/pulse.py:19-20 | a readable process's row keeps its pid, name, read and write bytes, and its total is read + write |
| `Ranking.Collected` | src/pulse.py:16-22 | at most one row per enumerated process, each with total = read + write |
| `Ranking.SkipsUnavailable` | src/pulse.py:16-22 | a failed fetch contributes nothing, and the processes after it are still collected as if it were absent |
| `Ranking.CollectedAppend` | src/pulse.py:16-22 | collecting a concatenation of enumerations is the concatenation of the collected parts |
| `Ranking.CollectedMembers` | src/pulse.py:16-22 | an entry is collected iff some successfully read process produced it (with total = read + write) |
| `Ranking.InsertByTotal` | src/pulse.py:23 | insertion adds exactly that one element (multiset) and the result starts with it or with the old head |
| `Ranking.InsertKeepsDescending` | src/pulse.py:23 | inserting into a list that is non-increasing by total keeps it non-increasing |
| `Ranking.SortByTotal` | src/pulse.py:23 | the sort is a permutation of its input, same length, non-increasing by total |
| `Ranking.InsertKeepsTieOrder` | src/pulse.py:23 | an inserted entry goes ahead of the already sorted entries with the same total |
| `Ranking.SortIsStable` | src/pulse.py:23 | for every total, the entries with that total are in input order after sorting |
| `Ranking.SortIsTheStableSort` | src/pulse.py:23 | any descending list that keeps every total's input order equals `SortByTotal`: the stable descending sort is unique |
| `Ranking.TopByTotal` | src/pulse.py:23 | at most n entries, all of them when fewer; non-increasing; a sub-multiset (all when ≤ n); equal totals keep input order as a prefix; every left-out entry has a total ≤ every kept one |
| `Ranking.GetTopIoProcesses` | src/pulse.py:14-23 | the result is `TopByTotal` of the readable processes in enumeration order; every entry comes from a successful fetch and has total = read + write |
| `Tracker.RealMax` | src/pulse.py:47-48 | Python's `max` on two rates: at least both, and equal to one of them |
| `Tracker.MaxRates` | src/pulse.py:47-48 | per component, the new max is at least the old max and the current rate, and equals one of them |
| `Tracker.NextMax` | src/pulse.py:41-48 | after a cycle the tracked drives are the old ones plus those in both snapshots |
| `Tracker.FirstObservationSeeds` | src/pulse.py:44-45 | a drive observed while untracked is seeded with exactly its current rates |
| `Tracker.LaterObservationTakesMax` | src/pulse.py:46-48 | a tracked, observed drive's max is ≥ old max and ≥ current rate, and equals one of them, per component |
| `Tracker.MaxCoversCurrentRates` | src/pulse.py:43-48 | an observed drive's max is ≥ the rates just computed |
| `Tracker.MaxNeverDecreases` | src/pulse.py:44-48 | a tracked maximum is never removed and never decreases |
| `Tracker.UnobservedUntouched` | src/pulse.py:41-42 | a drive missing from either snapshot gets no entry created and its entry is unchanged |
| `Tracker.DiskMonitor.constructor` | src/pulse.py:27-30 | starts with the seed snapshot as previous and no maxima |
| `Tracker.DiskMonitor.Step` | src/pulse.py:41-60 | new maxima = `NextMax` of the old state; previous snapshot becomes the current one; one sample (rates and maxima) per drive in both snapshots |
| `Tracker.DiskMonitor.RunCycles` | src/pulse.py:31-60 | after one Step per snapshot, maxima = `Run` over the snapshots and the previous snapshot is the last one |
| `Tracker.Run` | src/pulse.py:31-60 | over any run of cycles no tracked drive is dropped and no tracked maximum decreases |
| `Tracker.StepOneDrive` | src/pulse.py:41-48 | one more visited drive moves the loop's map to `NextMax` over one more drive, so visiting order does not matter |
| `Tracker.RunningMaxIsMaximum` | src/pulse.py:47-48 | the folded max is ≥ every element and equals some element, per component |
| `Tracker.OneCycleSeen` | src/pulse.py:41-60 | one cycle folds the drive's current rate into its entry without changing the overall maximum still to come |
| `Tracker.RunTracksTrueMaximum` | src/pulse.py:31-60 | over any run, a drive is tracked iff it was tracked or observed at least once, and its entry is the true max of its earlier max and every rate observed |
| `Tracker.SeededOneCycleLater` | src/pulse.py:41-60 | a drive first seen in cycle k is not tracked after k and is seeded with its cycle k+1 rates |
| `Tracker.ExampleTwoCycles` | src/pulse.py:41-48 | drives with 50 reads/s and 10 writes/s are seeded to (50, 0) and (0, 10); another identical cycle leaves the read max of the first at 50 |

## Left out

- psutil (`disk_io_counters`, `process_iter`, `io_counters`, `name`): foreign OS calls. They are inputs here: a `Snapshot` map per cycle and a `Fetch` sequence per ranking.
- Python dict iteration order of `current_io`: `Step` visits drives in an arbitrary order. `StepOneDrive` shows the outcome does not depend on it. Samples are returned as a map, not in print order.
- Screen clearing, every `print`, the byte-to-MB division and the `name[:19]` cut: display only.
- `time.sleep`, the endless `while True` and the `KeyboardInterrupt` exit: timing and cancellation. `RunCycles` covers a finite run of cycles instead.
- Argument validation: the code checks neither argument. The model requires `interval > 0` and takes `n` as a `nat`, so zero is allowed.
- A process counts as `Unavailable` whichever call fails inside the `try` block, the counter read or `name()`; the model does not tell the two apart.
- `argparse`: not modelled. Its effect is the preconditions `interval > 0` and `n >= 0`, so Python's negative slices and zero division are not reproduced.
- IEEE floating point: rates are exact reals. Rounding, overflow and NaN are not modelled.
- Integer widths: counters are unbounded integers. OS counter wrap-around appears only as a decreasing counter, which gives a negative rate.
- The top-process ranking of each cycle (lines 52-58) is `GetTopIoProcesses`. Its call inside the loop is not repeated in `Step`.
