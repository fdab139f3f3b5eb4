/**
 * Top-N ranking of processes by cumulative I/O bytes.  The OS enumeration
 * is an input sequence: each element is the outcome of reading one
 * process's pid, name and byte counters, which can fail for a process that
 * exited, is a zombie, or is not ours to inspect.
 */
module Ranking {

  /** Outcome of reading one enumerated process. */
  datatype Fetch =
    | Ok(pid: int, name: string, readBytes: nat, writeBytes: nat)
    | Unavailable

  /** One ranked row: pid, name, total bytes, read bytes, write bytes. */
  datatype ProcessEntry = ProcessEntry(pid: int, name: string, total: nat, readBytes: nat, writeBytes: nat)

  /** The row built for a process that could be read. */
  function EntryOf(f: Fetch): (e: ProcessEntry)
    requires f.Ok?
    ensures e.pid == f.pid && e.name == f.name && e.readBytes == f.readBytes && e.writeBytes == f.writeBytes
    ensures e.total == e.readBytes + e.writeBytes
  {
    ProcessEntry(f.pid, f.name, f.readBytes + f.writeBytes, f.readBytes, f.writeBytes)
  }

  /** The entries built, in enumeration order, from the processes that could be read. */
  function Collected(fs: seq<Fetch>): (r: seq<ProcessEntry>)
    // at most one entry per enumerated process
    ensures |r| <= |fs|
    // every entry's total is its read plus its write bytes
    ensures forall e :: e in r ==> e.total == e.readBytes + e.writeBytes
  {
    if fs == [] then []
    else (if fs[0].Ok? then [EntryOf(fs[0])] else []) + Collected(fs[1..])
  }

  /** Collecting a concatenation collects each part, in order. */
  lemma {:induction false} CollectedAppend(a: seq<Fetch>, b: seq<Fetch>)
    ensures Collected(a + b) == Collected(a) + Collected(b)
  {
    if a != [] {
      assert (a + b)[0] == a[0] && (a + b)[1..] == a[1..] + b;
      CollectedAppend(a[1..], b);
      var h := if a[0].Ok? then [EntryOf(a[0])] else [];
      calc {
        Collected(a + b);
        h + Collected(a[1..] + b);
        h + (Collected(a[1..]) + Collected(b));
        (h + Collected(a[1..])) + Collected(b);
      }
    } else {
      assert a + b == b;
    }
  }

  /**
   * A process that cannot be read contributes nothing and does not stop the
   * enumeration: the processes after it are collected as if it were absent.
   */
  lemma SkipsUnavailable(before: seq<Fetch>, after: seq<Fetch>)
    ensures Collected(before + [Unavailable] + after) == Collected(before) + Collected(after)
  {
    assert [Unavailable][1..] == [];
    assert Collected([Unavailable]) == [];
    calc {
      Collected(before + [Unavailable] + after);
      { CollectedAppend(before + [Unavailable], after); }
      Collected(before + [Unavailable]) + Collected(after);
      { CollectedAppend(before, [Unavailable]); }
      Collected(before) + [] + Collected(after);
      { assert Collected(before) + [] == Collected(before); }
      Collected(before) + Collected(after);
    }
  }

  /** An entry is collected exactly when some readable process produced it. */
  lemma {:induction false} CollectedMembers(fs: seq<Fetch>, e: ProcessEntry)
    ensures e in Collected(fs) <==> exists i :: 0 <= i < |fs| && fs[i].Ok? && EntryOf(fs[i]) == e
  {
    if fs != [] {
      CollectedMembers(fs[1..], e);
      if e in Collected(fs[1..]) {
        var i :| 0 <= i < |fs[1..]| && fs[1..][i].Ok? && EntryOf(fs[1..][i]) == e;
        assert fs[i + 1] == fs[1..][i];
      }
      if exists i :: 0 <= i < |fs| && fs[i].Ok? && EntryOf(fs[i]) == e {
        var i :| 0 <= i < |fs| && fs[i].Ok? && EntryOf(fs[i]) == e;
        if i > 0 {
          assert fs[1..][i - 1] == fs[i];
        }
      }
    }
  }

  /** Totals never increase from one position to a later one. */
  ghost predicate NonIncreasing(s: seq<ProcessEntry>)
  {
    forall i, j :: 0 <= i < j < |s| ==> s[i].total >= s[j].total
  }

  /**
   * Inserts `e` into a list ordered by descending total, in front of the
   * first entry whose total is not larger, so that `e` precedes every
   * entry of equal total already there.
   */
  function InsertByTotal(e: ProcessEntry, s: seq<ProcessEntry>): (r: seq<ProcessEntry>)
    ensures multiset(r) == multiset(s) + multiset{e}
    ensures |r| == |s| + 1
    ensures r[0] == e || (s != [] && r[0] == s[0])
  {
    if s == [] || s[0].total <= e.total then [e] + s
    else
      assert s == [s[0]] + s[1..];
      [s[0]] + InsertByTotal(e, s[1..])
  }

  /** Stable insertion sort in descending order of total. */
  function SortByTotal(s: seq<ProcessEntry>): (r: seq<ProcessEntry>)
    ensures multiset(r) == multiset(s)
    ensures |r| == |s|
    ensures NonIncreasing(r)
  {
    if s == [] then []
    else
      assert s == [s[0]] + s[1..];
      InsertKeepsDescending(s[0], SortByTotal(s[1..]));
      InsertByTotal(s[0], SortByTotal(s[1..]))
  }

  /** Inserting into a list ordered by descending total keeps it ordered. */
  lemma {:induction false} InsertKeepsDescending(e: ProcessEntry, s: seq<ProcessEntry>)
    requires NonIncreasing(s)
    ensures NonIncreasing(InsertByTotal(e, s))
  {
    var r := InsertByTotal(e, s);
    if s == [] || s[0].total <= e.total {
      assert r == [e] + s;
      forall i, j | 0 <= i < j < |r|
        ensures r[i].total >= r[j].total
      {
        if i == 0 {
          assert r[j] == s[j - 1];
          assert s[0].total >= s[j - 1].total;
        } else {
          assert r[i] == s[i - 1] && r[j] == s[j - 1];
        }
      }
    } else {
      var tail := s[1..];
      assert NonIncreasing(tail) by {
        forall i, j | 0 <= i < j < |tail|
          ensures tail[i].total >= tail[j].total
        {
          assert tail[i] == s[i + 1] && tail[j] == s[j + 1];
        }
      }
      InsertKeepsDescending(e, tail);
      var rest := InsertByTotal(e, tail);
      assert r == [s[0]] + rest;
      assert rest[0].total <= s[0].total by {
        if rest[0] != e {
          assert rest[0] == tail[0] == s[1];
        }
      }
      forall i, j | 0 <= i < j < |r|
        ensures r[i].total >= r[j].total
      {
        if i == 0 {
          assert r[j] == rest[j - 1];
          assert rest[0].total >= rest[j - 1].total || j == 1;
        } else {
          assert r[i] == rest[i - 1] && r[j] == rest[j - 1];
        }
      }
    }
  }

  /** The subsequence of the entries whose total is `k`. */
  function WithTotal(s: seq<ProcessEntry>, k: nat): seq<ProcessEntry>
  {
    if s == [] then []
    else (if s[0].total == k then [s[0]] else []) + WithTotal(s[1..], k)
  }

  lemma {:induction false} WithTotalAppend(a: seq<ProcessEntry>, b: seq<ProcessEntry>, k: nat)
    ensures WithTotal(a + b, k) == WithTotal(a, k) + WithTotal(b, k)
  {
    if a != [] {
      assert (a + b)[0] == a[0] && (a + b)[1..] == a[1..] + b;
      WithTotalAppend(a[1..], b, k);
      var h := if a[0].total == k then [a[0]] else [];
      calc {
        WithTotal(a + b, k);
        h + WithTotal(a[1..] + b, k);
        h + (WithTotal(a[1..], k) + WithTotal(b, k));
        (h + WithTotal(a[1..], k)) + WithTotal(b, k);
      }
    } else {
      assert a + b == b;
    }
  }

  lemma {:induction false} WithTotalMembers(s: seq<ProcessEntry>, k: nat, x: ProcessEntry)
    ensures x in WithTotal(s, k) <==> x in s && x.total == k
  {
    if s != [] {
      WithTotalMembers(s[1..], k, x);
      assert s == [s[0]] + s[1..];
    }
  }

  lemma WithTotalCons(x: ProcessEntry, s: seq<ProcessEntry>, k: nat)
    ensures WithTotal([x] + s, k) == (if x.total == k then [x] else []) + WithTotal(s, k)
  {
    assert ([x] + s)[0] == x && ([x] + s)[1..] == s;
  }

  /** Insertion keeps `e` ahead of the entries of equal total. */
  lemma {:induction false} InsertKeepsTieOrder(e: ProcessEntry, s: seq<ProcessEntry>, k: nat)
    ensures WithTotal(InsertByTotal(e, s), k) == WithTotal([e] + s, k)
  {
    if !(s == [] || s[0].total <= e.total) {
      var head, tail := s[0], s[1..];
      var fh := if head.total == k then [head] else [];
      var fe := if e.total == k then [e] else [];
      assert fh == [] || fe == [];
      calc {
        WithTotal(InsertByTotal(e, s), k);
        WithTotal([head] + InsertByTotal(e, tail), k);
        { WithTotalCons(head, InsertByTotal(e, tail), k); }
        fh + WithTotal(InsertByTotal(e, tail), k);
        { InsertKeepsTieOrder(e, tail, k); }
        fh + WithTotal([e] + tail, k);
        { WithTotalCons(e, tail, k); }
        fh + (fe + WithTotal(tail, k));
        fe + (fh + WithTotal(tail, k));
        { WithTotalCons(head, tail, k); assert s == [head] + tail; }
        fe + WithTotal(s, k);
        { WithTotalCons(e, s, k); }
        WithTotal([e] + s, k);
      }
    }
  }

  /**
   * The sort is stable: for every total, the entries with that total appear
   * in the same relative order as in the input.
   */
  lemma {:induction false} SortIsStable(s: seq<ProcessEntry>, k: nat)
    ensures WithTotal(SortByTotal(s), k) == WithTotal(s, k)
  {
    if s != [] {
      var head, tail := s[0], s[1..];
      calc {
        WithTotal(SortByTotal(s), k);
        WithTotal(InsertByTotal(head, SortByTotal(tail)), k);
        { InsertKeepsTieOrder(head, SortByTotal(tail), k); }
        WithTotal([head] + SortByTotal(tail), k);
        { WithTotalCons(head, SortByTotal(tail), k); }
        (if head.total == k then [head] else []) + WithTotal(SortByTotal(tail), k);
        { SortIsStable(tail, k); }
        (if head.total == k then [head] else []) + WithTotal(tail, k);
        WithTotal(s, k);
      }
    }
  }

  lemma LeaderHasTies(s: seq<ProcessEntry>)
    ensures s != [] ==> WithTotal(s, s[0].total) != []
  {
  }

  /**
   * Two lists ordered by descending total that agree, for every total, on
   * the order of the entries with that total are equal.
   */
  lemma {:induction false} OrderedTieOrderUnique(t: seq<ProcessEntry>, u: seq<ProcessEntry>)
    requires NonIncreasing(t) && NonIncreasing(u)
    requires forall k: nat :: WithTotal(t, k) == WithTotal(u, k)
    ensures t == u
    decreases |t|
  {
    if t == [] || u == [] {
      LeaderHasTies(t);
      LeaderHasTies(u);
    } else {
      var x, y := t[0], u[0];
      WithTotalMembers(t, x.total, x);
      WithTotalMembers(u, x.total, x);
      WithTotalMembers(t, y.total, y);
      WithTotalMembers(u, y.total, y);
      assert x.total == y.total;
      assert x == y by {
        var tx := WithTotal(t[1..], x.total);
        var uy := WithTotal(u[1..], x.total);
        assert WithTotal(t, x.total) == [x] + tx;
        assert WithTotal(u, x.total) == [y] + uy;
        assert ([x] + tx)[0] == x && ([y] + uy)[0] == y;
      }
      forall k: nat
        ensures WithTotal(t[1..], k) == WithTotal(u[1..], k)
      {
        var h := if x.total == k then [x] else [];
        var tk, uk := WithTotal(t[1..], k), WithTotal(u[1..], k);
        assert WithTotal(t, k) == h + tk && WithTotal(u, k) == h + uk;
        assert (h + tk)[|h|..] == tk && (h + uk)[|h|..] == uk;
      }
      OrderedTieOrderUnique(t[1..], u[1..]);
      assert t == [x] + t[1..] && u == [y] + u[1..];
    }
  }

  /**
   * SortByTotal is the only ordering of its input that is descending by
   * total and keeps the order of equal totals.
   */
  lemma SortIsTheStableSort(s: seq<ProcessEntry>, t: seq<ProcessEntry>)
    requires NonIncreasing(t)
    requires forall k: nat :: WithTotal(t, k) == WithTotal(s, k)
    ensures t == SortByTotal(s)
  {
    forall k: nat
      ensures WithTotal(t, k) == WithTotal(SortByTotal(s), k)
    {
      SortIsStable(s, k);
    }
    OrderedTieOrderUnique(t, SortByTotal(s));
  }

  /** Keeping a prefix keeps, for every total, a prefix of that total's entries. */
  lemma {:induction false} PrefixKeepsTiePrefix(s: seq<ProcessEntry>, m: nat, k: nat)
    requires m <= |s|
    ensures WithTotal(s[..m], k) <= WithTotal(s, k)
  {
    WithTotalAppend(s[..m], s[m..], k);
    assert s == s[..m] + s[m..];
  }

  /**
   * The first `n` entries in descending order of total (all of them when
   * there are fewer than `n`).
   */
  function TopByTotal(c: seq<ProcessEntry>, n: nat): (top: seq<ProcessEntry>)
    // at most n entries, and all of them when there are fewer than n
    ensures |top| == if |c| < n then |c| else n
    ensures NonIncreasing(top)
    // entries of equal total keep their order in c
    ensures forall k: nat :: WithTotal(top, k) <= WithTotal(c, k)
    // a prefix of a permutation of c
    ensures multiset(top) <= multiset(c)
    ensures |c| <= n ==> multiset(top) == multiset(c)
    // every entry left out has a total no larger than any entry kept
    ensures forall x, y :: x in multiset(c) - multiset(top) && y in top ==> x.total <= y.total
  {
    var sorted := SortByTotal(c);
    var m := if n < |sorted| then n else |sorted|;
    TopKeepsTieOrder(c, m);
    LeftOutNoLarger(c, m);
    assert m == |sorted| ==> sorted[..m] == sorted;
    sorted[..m]
  }

  /**
   * The at most `n` processes with the largest cumulative I/O, largest
   * first; processes whose counters cannot be read are skipped and the
   * enumeration goes on past them.
   */
  method GetTopIoProcesses(procs: seq<Fetch>, n: nat) returns (top: seq<ProcessEntry>)
    ensures top == TopByTotal(Collected(procs), n)
    // every entry comes from a process that was read successfully
    ensures forall e :: e in top ==> exists i :: 0 <= i < |procs| && procs[i].Ok? && EntryOf(procs[i]) == e
    ensures forall e :: e in top ==> e.total == e.readBytes + e.writeBytes
  {
    var processes: seq<ProcessEntry> := [];
    for i := 0 to |procs|
      invariant processes == Collected(procs[..i])
    {
      CollectedAppend(procs[..i], [procs[i]]);
      assert procs[..i + 1] == procs[..i] + [procs[i]];
      match procs[i]
      case Ok(pid, name, readBytes, writeBytes) =>
        var ioTotal := readBytes + writeBytes;
        processes := processes + [ProcessEntry(pid, name, ioTotal, readBytes, writeBytes)];
      case Unavailable =>
    }
    assert procs[..|procs|] == procs;
    top := TopByTotal(processes, n);
    KeptAreReadable(procs, |top|);
  }

  /** For every total, the kept entries with that total are the first ones enumerated. */
  lemma TopKeepsTieOrder(c: seq<ProcessEntry>, m: nat)
    requires m <= |c|
    ensures forall k: nat :: WithTotal(SortByTotal(c)[..m], k) <= WithTotal(c, k)
  {
    forall k: nat
      ensures WithTotal(SortByTotal(c)[..m], k) <= WithTotal(c, k)
    {
      PrefixKeepsTiePrefix(SortByTotal(c), m, k);
      SortIsStable(c, k);
    }
  }

  /** An entry that is not kept has a total no larger than any kept entry. */
  lemma LeftOutNoLarger(c: seq<ProcessEntry>, m: nat)
    requires m <= |c|
    ensures multiset(SortByTotal(c)[..m]) <= multiset(c)
    ensures forall x, y :: x in multiset(c) - multiset(SortByTotal(c)[..m]) && y in SortByTotal(c)[..m] ==> x.total <= y.total
  {
    var sorted := SortByTotal(c);
    var top, rest := sorted[..m], sorted[m..];
    assert sorted == top + rest;
    assert multiset(c) == multiset(top) + multiset(rest);
    assert multiset(c) - multiset(top) == multiset(rest) by {
      DifferenceOfSum(multiset(top), multiset(rest));
    }
    SplitOrdered(sorted, m);
  }

  lemma SplitOrdered(s: seq<ProcessEntry>, m: nat)
    requires NonIncreasing(s) && m <= |s|
    ensures forall x, y :: x in s[m..] && y in s[..m] ==> x.total <= y.total
  {
    forall x, y | x in s[m..] && y in s[..m]
      ensures x.total <= y.total
    {
      var j :| 0 <= j < |s[m..]| && s[m..][j] == x;
      var i :| 0 <= i < m && s[..m][i] == y;
      assert s[i] == y && s[m + j] == x;
    }
  }

  lemma DifferenceOfSum(a: multiset<ProcessEntry>, b: multiset<ProcessEntry>)
    ensures (a + b) - a == b
  {
  }

  /** Every kept entry was built from a process that could be read. */
  lemma KeptAreReadable(procs: seq<Fetch>, m: nat)
    requires m <= |Collected(procs)|
    ensures forall e :: e in SortByTotal(Collected(procs))[..m] ==>
      exists i :: 0 <= i < |procs| && procs[i].Ok? && EntryOf(procs[i]) == e
    ensures forall e :: e in SortByTotal(Collected(procs))[..m] ==> e.total == e.readBytes + e.writeBytes
  {
    var c := Collected(procs);
    forall e | e in SortByTotal(c)[..m]
      ensures exists i :: 0 <= i < |procs| && procs[i].Ok? && EntryOf(procs[i]) == e
      ensures e.total == e.readBytes + e.writeBytes
    {
      assert e in multiset(SortByTotal(c));
      CollectedMembers(procs, e);
    }
  }
}
