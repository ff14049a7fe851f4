/** Device status timelines: the meaning of the status log second by second, the hour-bucket
    heatmap and the outage pairing, both computed from the same log. */
module Timeline {
  import opened Arithmetic
  import opened Wrappers

  /** A row of device_status_log; the log is ordered by (timestamp, id). */
  datatype Entry = Entry(device: string, ts: int, status: string)

  predicate Sorted(rows: seq<Entry>) {
    forall i, j :: 0 <= i < j < |rows| ==> rows[i].ts <= rows[j].ts
  }

  /** The rows of one device with since <= ts <= until. */
  function Window(log: seq<Entry>, device: string, since: int, until: int): seq<Entry> {
    if log == [] then []
    else
      var r := log[|log| - 1];
      Window(log[..|log| - 1], device, since, until) + (if r.device == device && since <= r.ts <= until then [r] else [])
  }

  predicate IsBefore(r: Entry, device: string, since: int) {
    r.device == device && r.ts < since
  }

  /** ORDER BY timestamp DESC LIMIT 1: a row of the device before the window than which none is
      later; of several with the same timestamp the query may return any. */
  ghost predicate IsPrior(log: seq<Entry>, device: string, since: int, prior: Option<Entry>) {
    match prior
    case None => forall r :: r in log && r.device == device ==> r.ts >= since
    case Some(p) =>
      p in log && p.device == device && p.ts < since && forall r :: r in log && r.device == device && r.ts < since ==> r.ts <= p.ts
  }

  /** The query for the row before the window; the rows come in any order. */
  method Prior(log: seq<Entry>, device: string, since: int) returns (prior: Option<Entry>)
    ensures IsPrior(log, device, since, prior)
  {
    prior := None;
    var todo := set r | r in log && IsBefore(r, device, since);
    ghost var all := todo;
    while todo != {}
      invariant todo <= all
      invariant prior.None? ==> todo == all
      invariant prior.Some? ==> prior.value in all && forall r :: r in all - todo ==> r.ts <= prior.value.ts
      decreases |todo|
    {
      var r :| r in todo;
      if prior.None? || prior.value.ts < r.ts {
        prior := Some(r);
      }
      todo := todo - {r};
    }
    assert forall r :: r in log && IsBefore(r, device, since) ==> r in all;
  }

  /** The heatmap takes 'offline' and 'offline_timeout' as offline and all else as online. */
  predicate HeatOnline(r: Entry) {
    r.status != "offline" && r.status != "offline_timeout"
  }

  /** The outage query takes 'online' as online and all else as offline. */
  predicate QueryOnline(r: Entry) {
    r.status == "online"
  }

  predicate KnownStatus(r: Entry) {
    r.status == "online" || r.status == "offline" || r.status == "offline_timeout"
  }

  // ----- The pointwise meaning --------------------------------------------------------------

  /** The status at second s is that of the last row at or before s; `before` is the status
      when the window opens, None when it is not known. */
  function StatusAt(before: Option<bool>, rows: seq<Entry>, s: int): Option<bool> {
    if rows == [] then before
    else if rows[|rows| - 1].ts <= s then Some(HeatOnline(rows[|rows| - 1]))
    else StatusAt(before, rows[..|rows| - 1], s)
  }

  /** Seconds in [lo, hi) with the given status. */
  function Seconds(before: Option<bool>, rows: seq<Entry>, lo: int, hi: int, on: bool): (n: nat)
    ensures lo <= hi ==> n <= hi - lo
    decreases hi - lo
  {
    if hi <= lo then 0
    else Seconds(before, rows, lo, hi - 1, on) + (if StatusAt(before, rows, hi - 1) == Some(on) then 1 else 0)
  }

  lemma {:induction false} SecondsSplit(before: Option<bool>, rows: seq<Entry>, lo: int, mid: int, hi: int, on: bool)
    requires lo <= mid <= hi
    ensures Seconds(before, rows, lo, hi, on) == Seconds(before, rows, lo, mid, on) + Seconds(before, rows, mid, hi, on)
    decreases hi - mid
  {
    if mid < hi {
      SecondsSplit(before, rows, lo, mid, hi - 1, on);
    }
  }

  lemma {:induction false} SecondsSteady(before: Option<bool>, rows: seq<Entry>, lo: int, hi: int, on: bool, st: Option<bool>)
    requires lo <= hi
    requires forall s :: lo <= s < hi ==> StatusAt(before, rows, s) == st
    ensures Seconds(before, rows, lo, hi, on) == if st == Some(on) then hi - lo else 0
    decreases hi - lo
  {
    if lo < hi {
      SecondsSteady(before, rows, lo, hi - 1, on, st);
    }
  }

  /** Between the k-th row and the next the status is that of the k-th row. */
  lemma {:induction false} StatusBetween(before: Option<bool>, rows: seq<Entry>, k: nat, s: int)
    requires Sorted(rows) && k <= |rows|
    requires k > 0 ==> rows[k - 1].ts <= s
    requires k < |rows| ==> s < rows[k].ts
    ensures StatusAt(before, rows, s) == if k > 0 then Some(HeatOnline(rows[k - 1])) else before
    decreases |rows|
  {
    if k < |rows| {
      assert rows[|rows| - 1].ts >= rows[k].ts;
      StatusBetween(before, rows[..|rows| - 1], k, s);
    }
  }

  // ----- The heatmap -----------------------------------------------------------------------------

  const HOUR := 3600
  const DAY := 86400

  function UtcMidnight(sec: int): int {
    sec / DAY * DAY
  }

  /** Where bucket i begins. */
  function Bucket(start: int, i: int): int {
    start + i * HOUR
  }

  /** Seconds that [from, to) and bucket i share. */
  function Overlap(start: int, i: int, from: int, till: int): nat {
    Max(0, Min(till, Bucket(start, i + 1)) - Max(from, Bucket(start, i)))
  }

  /** Adds a segment to the buckets it runs through. */
  method AddSegment(buckets: array<int>, start: int, from: int, till: int)
    modifies buckets
    ensures forall i :: 0 <= i < buckets.Length ==> buckets[i] == old(buckets[i]) + Overlap(start, i, from, till)
  {
    if till <= from {
      OverlapNone(start, from, till);
      return;
    }
    var t := from;
    OverlapNone(start, from, from);
    while t < till
      invariant from <= t <= till
      invariant forall i :: 0 <= i < buckets.Length ==> buckets[i] == old(buckets[i]) + Overlap(start, i, from, t)
      decreases till - t
    {
      var idx := (t - start) / HOUR;
      var bucketEnd := start + (idx + 1) * HOUR;
      var chunkEnd := Min(till, bucketEnd);
      OverlapStep(start, from, t, chunkEnd);
      if 0 <= idx < buckets.Length {
        buckets[idx] := buckets[idx] + (chunkEnd - t);
      }
      t := chunkEnd;
    }
  }

  lemma OverlapNone(start: int, from: int, till: int)
    requires till <= from
    ensures forall i :: Overlap(start, i, from, till) == 0
  {
  }

  /** A chunk inside one bucket adds to that bucket only. */
  lemma OverlapStep(start: int, from: int, t: int, chunkEnd: int)
    requires from <= t < chunkEnd <= start + ((t - start) / HOUR + 1) * HOUR
    ensures forall i :: Overlap(start, i, from, chunkEnd) == Overlap(start, i, from, t) + (if i == (t - start) / HOUR then chunkEnd - t else 0)
  {
    var idx := (t - start) / HOUR;
    assert start + idx * HOUR <= t < start + (idx + 1) * HOUR;
  }

  /** Seconds of bucket i before `until` with the given status. */
  function BucketSeconds(before: Option<bool>, rows: seq<Entry>, start: int, i: int, until: int, on: bool): nat {
    Seconds(before, rows, Bucket(start, i), Min(Bucket(start, i + 1), until), on)
  }

  /** A stretch of steady status adds to an interval what the two share, or nothing. */
  lemma SteadyAdds(before: Option<bool>, rows: seq<Entry>, b: int, e: int, from: int, till: int, on: bool, st: Option<bool>)
    requires b <= e && from <= till
    requires forall s :: from <= s < till ==> StatusAt(before, rows, s) == st
    ensures Seconds(before, rows, b, Min(e, till), on) ==
      Seconds(before, rows, b, Min(e, from), on) + (if st == Some(on) then Max(0, Min(till, e) - Max(from, b)) else 0)
  {
    hide StatusAt, Seconds;
    var lo, hi := Max(from, b), Min(till, e);
    SecondsEmpty(before, rows, b, on);
    if lo < hi {
      SecondsSteady(before, rows, lo, hi, on, st);
      SecondsSplit(before, rows, b, lo, hi, on);
    }
  }

  /** A segment between two rows adds to bucket i what the two share. */
  lemma SegmentCounts(before: Option<bool>, rows: seq<Entry>, start: int, k: nat, i: int, from: int, till: int, on: bool)
    requires Sorted(rows) && k <= |rows| && start <= from <= till
    requires k > 0 ==> rows[k - 1].ts <= from
    requires k < |rows| ==> till <= rows[k].ts
    ensures var st := if k > 0 then Some(HeatOnline(rows[k - 1])) else before;
      BucketSeconds(before, rows, start, i, till, on) ==
      BucketSeconds(before, rows, start, i, from, on) + (if st == Some(on) then Overlap(start, i, from, till) else 0)
  {
    hide StatusAt, Seconds, Min, Max, HeatOnline;
    var st := if k > 0 then Some(HeatOnline(rows[k - 1])) else before;
    forall s | from <= s < till
      ensures StatusAt(before, rows, s) == st
    {
      StatusBetween(before, rows, k, s);
    }
    SteadyAdds(before, rows, Bucket(start, i), Bucket(start, i + 1), from, till, on, st);
  }

  lemma SecondsEmpty(before: Option<bool>, rows: seq<Entry>, lo: int, on: bool)
    ensures forall hi :: hi <= lo ==> Seconds(before, rows, lo, hi, on) == 0
  {
  }

  datatype Heat = Heat(online: seq<int>, offline: seq<int>)

  /** The first second with a known status, if there is one. */
  function CoverageStart(before: Option<bool>, rows: seq<Entry>, start: int): Option<int> {
    if before.Some? then Some(start) else if rows != [] then Some(rows[0].ts) else None
  }

  /** The buckets of the heatmap, filled by a walk over the rows. */
  method FillBuckets(prior: Option<Entry>, rows: seq<Entry>, days: nat, start: int, now: int)
    returns (online: array<int>, offline: array<int>)
    requires Sorted(rows) && start <= now
    requires forall i :: 0 <= i < |rows| ==> start <= rows[i].ts <= now
    ensures online.Length == offline.Length == days * 24
    ensures var before := if prior.Some? then Some(HeatOnline(prior.value)) else None;
      forall i :: 0 <= i < days * 24 ==>
        online[i] == BucketSeconds(before, rows, start, i, now, true) && offline[i] == BucketSeconds(before, rows, start, i, now, false)
  {
    hide Overlap, BucketSeconds, HeatOnline;
    ghost var before := if prior.Some? then Some(HeatOnline(prior.value)) else None;
    online := new int[days * 24](_ => 0);
    offline := new int[days * 24](_ => 0);
    var coverageStart := start;
    var state: Option<bool> := if prior.Some? then Some(HeatOnline(prior.value)) else None;
    if state.None? && rows != [] {
      coverageStart := rows[0].ts;
      state := Some(HeatOnline(rows[0]));
    }
    NothingBefore(before, rows, start, coverageStart);
    if state.Some? {
      var cursor := coverageStart;
      var k := 0;
      while k < |rows|
        invariant 0 <= k <= |rows| && state.Some?
        invariant start <= cursor <= now && (k > 0 ==> rows[k - 1].ts <= cursor)
        invariant k < |rows| && rows[k].ts < cursor ==> false
        invariant state == if k > 0 then Some(HeatOnline(rows[k - 1])) else if before.Some? then before else Some(HeatOnline(rows[0]))
        invariant k == 0 && before.None? ==> cursor == rows[0].ts
        invariant forall i :: 0 <= i < days * 24 ==>
          online[i] == BucketSeconds(before, rows, start, i, cursor, true) && offline[i] == BucketSeconds(before, rows, start, i, cursor, false)
      {
        var row := rows[k];
        if row.ts <= cursor {
          state := Some(HeatOnline(row));
        } else {
          AddState(online, offline, before, rows, start, k, cursor, row.ts, state.value);
          state := Some(HeatOnline(row));
          cursor := row.ts;
        }
        k := k + 1;
      }
      AddState(online, offline, before, rows, start, k, cursor, now, state.value);
    }
  }

  /** One segment of known status. */
  method AddState(online: array<int>, offline: array<int>, ghost before: Option<bool>, ghost rows: seq<Entry>, start: int,
                  ghost k: nat, cursor: int, till: int, isOnline: bool)
    requires online != offline && online.Length == offline.Length
    requires Sorted(rows) && k <= |rows| && start <= cursor <= till
    requires (k > 0 ==> rows[k - 1].ts <= cursor) && (k < |rows| ==> till <= rows[k].ts)
    requires Some(isOnline) == if k > 0 then Some(HeatOnline(rows[k - 1])) else before
    requires forall i :: 0 <= i < online.Length ==>
      online[i] == BucketSeconds(before, rows, start, i, cursor, true) && offline[i] == BucketSeconds(before, rows, start, i, cursor, false)
    modifies online, offline
    ensures forall i :: 0 <= i < online.Length ==>
      online[i] == BucketSeconds(before, rows, start, i, till, true) && offline[i] == BucketSeconds(before, rows, start, i, till, false)
  {
    hide Overlap, BucketSeconds, HeatOnline;
    AddSegment(if isOnline then online else offline, start, cursor, till);
    forall i | 0 <= i < online.Length
      ensures online[i] == BucketSeconds(before, rows, start, i, till, true) && offline[i] == BucketSeconds(before, rows, start, i, till, false)
    {
      SegmentCounts(before, rows, start, k, i, cursor, till, true);
      SegmentCounts(before, rows, start, k, i, cursor, till, false);
    }
  }

  /** No second before the coverage starts counts for any bucket. */
  lemma NothingBefore(before: Option<bool>, rows: seq<Entry>, start: int, coverageStart: int)
    requires Sorted(rows) && start <= coverageStart
    requires Some(coverageStart) == CoverageStart(before, rows, start) || CoverageStart(before, rows, start).None?
    ensures forall i, on :: 0 <= i ==> BucketSeconds(before, rows, start, i, coverageStart, on) == 0
    ensures CoverageStart(before, rows, start).None? ==> forall i, until, on :: BucketSeconds(before, rows, start, i, until, on) == 0
  {
    forall lo: int, hi: int, on | hi <= coverageStart && start <= lo
      ensures Seconds(before, rows, lo, hi, on) == 0
    {
      if lo < hi {
        forall s | lo <= s < hi
          ensures StatusAt(before, rows, s) == None
        {
          StatusBetween(before, rows, 0, s);
        }
        SecondsSteady(before, rows, lo, hi, on, None);
      }
    }
    if CoverageStart(before, rows, start).None? {
      forall lo: int, hi: int, on
        ensures Seconds(before, rows, lo, hi, on) == 0
      {
        if lo < hi {
          SecondsSteady(before, rows, lo, hi, on, None);
        }
      }
    }
  }

  // ----- What the buckets add up to -------------------------------------------------------------

  /** The first n values added up. */
  function Total(s: seq<int>, n: nat): int
    requires n <= |s|
  {
    if n == 0 then 0 else Total(s, n - 1) + s[n - 1]
  }

  lemma {:induction false} BucketsAddUp(before: Option<bool>, rows: seq<Entry>, start: int, now: int, on: bool, s: seq<int>, n: nat)
    requires n <= |s| && start <= now
    requires forall i :: 0 <= i < |s| ==> s[i] == BucketSeconds(before, rows, start, i, now, on)
    ensures Total(s, n) == Seconds(before, rows, start, Min(Bucket(start, n), now), on)
  {
    hide StatusAt, Seconds;
    SecondsEmpty(before, rows, start, on);
    if n > 0 {
      BucketsAddUp(before, rows, start, now, on, s, n - 1);
      var b := Bucket(start, n - 1);
      SecondsEmpty(before, rows, b, on);
      if b < now {
        SecondsSplit(before, rows, start, b, Min(Bucket(start, n), now), on);
      }
    }
  }

  lemma {:induction false} OnAndOff(before: Option<bool>, rows: seq<Entry>, lo: int, hi: int)
    requires lo <= hi
    ensures Seconds(before, rows, lo, hi, true) + Seconds(before, rows, lo, hi, false) <= hi - lo
    decreases hi - lo
  {
    if lo < hi {
      OnAndOff(before, rows, lo, hi - 1);
    }
  }

  lemma {:induction false} OnOrOff(before: Option<bool>, rows: seq<Entry>, lo: int, hi: int)
    requires lo <= hi
    requires forall s :: lo <= s < hi ==> StatusAt(before, rows, s).Some?
    ensures Seconds(before, rows, lo, hi, true) + Seconds(before, rows, lo, hi, false) == hi - lo
    decreases hi - lo
  {
    if lo < hi {
      OnOrOff(before, rows, lo, hi - 1);
      var st := StatusAt(before, rows, hi - 1);
      match st {
        case Some(on) =>
          if on {
            assert st == Some(true);
          } else {
            assert st == Some(false);
          }
        case None =>
          assert false;
      }
    }
  }

  lemma {:induction false} KnownFrom(before: Option<bool>, rows: seq<Entry>, s: int)
    requires Sorted(rows)
    requires before.Some? || (rows != [] && rows[0].ts <= s)
    ensures StatusAt(before, rows, s).Some?
  {
    if rows != [] && rows[|rows| - 1].ts > s {
      KnownFrom(before, rows[..|rows| - 1], s);
    }
  }

  /** No bucket holds more than an hour, and all of them together hold exactly the seconds from
      the coverage start to now, when the window reaches up to now. */
  lemma HeatmapConserves(before: Option<bool>, rows: seq<Entry>, days: nat, start: int, now: int, online: seq<int>, offline: seq<int>)
    requires Sorted(rows) && start <= now < start + days * DAY
    requires forall i :: 0 <= i < |rows| ==> start <= rows[i].ts <= now
    requires |online| == |offline| == days * 24
    requires forall i :: 0 <= i < days * 24 ==> online[i] == BucketSeconds(before, rows, start, i, now, true) && offline[i] == BucketSeconds(before, rows, start, i, now, false)
    ensures forall i :: 0 <= i < days * 24 ==> 0 <= online[i] && 0 <= offline[i] && online[i] + offline[i] <= HOUR
    ensures Total(online, days * 24) == Seconds(before, rows, start, now, true)
    ensures Total(offline, days * 24) == Seconds(before, rows, start, now, false)
    ensures var c := CoverageStart(before, rows, start);
      Total(online, days * 24) + Total(offline, days * 24) == if c.Some? then now - c.value else 0
  {
    hide StatusAt;
    forall i | 0 <= i < days * 24
      ensures 0 <= online[i] && 0 <= offline[i] && online[i] + offline[i] <= HOUR
    {
      var b, e := Bucket(start, i), Min(Bucket(start, i + 1), now);
      if b <= e {
        OnAndOff(before, rows, b, e);
      }
    }
    BucketsAddUp(before, rows, start, now, true, online, days * 24);
    BucketsAddUp(before, rows, start, now, false, offline, days * 24);
    assert Bucket(start, days * 24) > now;
    CoveredSeconds(before, rows, start, now);
  }

  lemma CoveredSeconds(before: Option<bool>, rows: seq<Entry>, start: int, now: int)
    requires Sorted(rows) && start <= now
    requires forall i :: 0 <= i < |rows| ==> start <= rows[i].ts <= now
    ensures var c := CoverageStart(before, rows, start);
      Seconds(before, rows, start, now, true) + Seconds(before, rows, start, now, false) == if c.Some? then now - c.value else 0
  {
    hide Seconds;
    var c := CoverageStart(before, rows, start);
    if c.None? {
      SecondsSteady(before, rows, start, now, true, None);
      SecondsSteady(before, rows, start, now, false, None);
    } else {
      forall s | start <= s < c.value
        ensures StatusAt(before, rows, s) == None
      {
        StatusBetween(before, rows, 0, s);
      }
      forall s | c.value <= s < now
        ensures StatusAt(before, rows, s).Some?
      {
        KnownFrom(before, rows, s);
      }
      hide StatusAt;
      SecondsSteady(before, rows, start, c.value, true, None);
      SecondsSteady(before, rows, start, c.value, false, None);
      OnOrOff(before, rows, c.value, now);
      SecondsSplit(before, rows, start, c.value, now, true);
      SecondsSplit(before, rows, start, c.value, now, false);
    }
  }

  // ----- The heatmap's cells and pattern -----------------------------------------------------------

  const PROBLEM_PCT := 50
  const MIN_RUN := 3

  type Grid = seq<seq<Option<int>>>

  datatype Cell = Cell(day: int, hour: int, onlinePct: int, coveredSec: int)

  datatype Pattern = Pattern(hourStart: int, hourEnd: int, consecutiveDays: int)

  /** `Math.round(online / covered * 100)` */
  function Percent(online: int, covered: int): int
    requires covered > 0
  {
    (200 * online + covered) / (2 * covered)
  }

  predicate IsGrid(grid: Grid, days: nat) {
    |grid| == days && forall d :: 0 <= d < days ==> |grid[d]| == 24
  }

  predicate Problem(grid: Grid, days: nat, d: int, h: int)
    requires IsGrid(grid, days) && 0 <= d < days && 0 <= h < 24
  {
    grid[d][h].Some? && grid[d][h].value < PROBLEM_PCT
  }

  /** Problem days in a row that end right before day d, and the most in a row before day d. */
  function RunBefore(grid: Grid, days: nat, h: int, d: nat): nat
    requires IsGrid(grid, days) && d <= days && 0 <= h < 24
  {
    if d == 0 || !Problem(grid, days, d - 1, h) then 0 else RunBefore(grid, days, h, d - 1) + 1
  }

  function BestBefore(grid: Grid, days: nat, h: int, d: nat): nat
    requires IsGrid(grid, days) && d <= days && 0 <= h < 24
  {
    if d == 0 then 0
    else if RunBefore(grid, days, h, d) > BestBefore(grid, days, h, d - 1) then RunBefore(grid, days, h, d)
    else BestBefore(grid, days, h, d - 1)
  }

  /** k problem days in a row at hour h, the last of them before day d. */
  ghost predicate HasRun(grid: Grid, days: nat, h: int, d: nat, k: nat)
    requires IsGrid(grid, days) && d <= days && 0 <= h < 24
  {
    exists from :: 0 <= from && from + k <= d && RunAt(grid, days, h, from, k)
  }

  ghost predicate RunAt(grid: Grid, days: nat, h: int, from: nat, k: nat)
    requires IsGrid(grid, days) && from + k <= days && 0 <= h < 24
  {
    forall i :: from <= i < from + k ==> Problem(grid, days, i, h)
  }

  lemma {:induction false} RunBeforeIs(grid: Grid, days: nat, h: int, d: nat, k: nat)
    requires IsGrid(grid, days) && d <= days && 0 <= h < 24
    ensures RunBefore(grid, days, h, d) <= d
    ensures k <= RunBefore(grid, days, h, d) <==> k <= d && RunAt(grid, days, h, d - k, k)
  {
    if d > 0 && k > 0 {
      RunBeforeIs(grid, days, h, d - 1, k - 1);
      if k <= d && RunAt(grid, days, h, d - k, k) {
        assert Problem(grid, days, d - 1, h);
      }
    } else if d > 0 {
      RunBeforeIs(grid, days, h, d - 1, 0);
    }
  }

  /** BestBefore is the length of the longest run of consecutive problem days. */
  lemma {:induction false} BestIsLongestRun(grid: Grid, days: nat, h: int, d: nat, k: nat)
    requires IsGrid(grid, days) && d <= days && 0 <= h < 24
    ensures k <= BestBefore(grid, days, h, d) <==> HasRun(grid, days, h, d, k)
  {
    hide RunBefore, Problem, RunAt;
    RunBeforeIs(grid, days, h, d, k);
    if d == 0 {
      if k == 0 {
        assert RunAt(grid, days, h, 0, 0);
      }
    } else {
      BestIsLongestRun(grid, days, h, d - 1, k);
      if HasRun(grid, days, h, d, k) && !HasRun(grid, days, h, d - 1, k) {
        var from :| 0 <= from && from + k <= d && RunAt(grid, days, h, from, k);
        assert from == d - k;
      }
    }
  }

  function Best(grid: Grid, days: nat, h: int): nat
    requires IsGrid(grid, days) && 0 <= h < 24
  {
    BestBefore(grid, days, h, days)
  }

  method BestRun(grid: Grid, days: nat, h: int) returns (best: nat)
    requires IsGrid(grid, days) && 0 <= h < 24
    ensures best == Best(grid, days, h)
  {
    var run := 0;
    best := 0;
    var d := 0;
    while d < days
      invariant 0 <= d <= days
      invariant run == RunBefore(grid, days, h, d) && best == BestBefore(grid, days, h, d)
    {
      var v := grid[d][h];
      if v.Some? && v.value < PROBLEM_PCT {
        run := run + 1;
      } else {
        run := 0;
      }
      if run > best {
        best := run;
      }
      d := d + 1;
    }
  }

  /** What the pattern says about the grid. */
  ghost predicate IsPattern(grid: Grid, days: nat, r: Option<Pattern>)
    requires IsGrid(grid, days)
  {
    match r
    case None => forall h :: 0 <= h < 24 ==> Best(grid, days, h) < MIN_RUN
    case Some(p) =>
      0 <= p.hourStart < p.hourEnd <= 24 &&
      (forall h :: p.hourStart <= h < p.hourEnd ==> Best(grid, days, h) >= MIN_RUN) &&
      (p.hourStart > 0 ==> Best(grid, days, p.hourStart - 1) < MIN_RUN) &&
      (p.hourEnd < 24 ==> Best(grid, days, p.hourEnd) < MIN_RUN) &&
      (forall h :: 0 <= h < 24 ==> Best(grid, days, h) <= p.consecutiveDays) &&
      (forall h :: 0 <= h < p.hourStart ==> Best(grid, days, h) < p.consecutiveDays) &&
      exists h :: p.hourStart <= h < p.hourEnd && Best(grid, days, h) == p.consecutiveDays
  }

  /** The hours around the one with the longest run that all have a run of at least MIN_RUN
      days: a block that cannot be made larger. */
  method DetectPattern(grid: Grid, days: nat) returns (r: Option<Pattern>)
    requires IsGrid(grid, days)
    ensures IsPattern(grid, days, r)
  {
    hide Best;
    var runByHour: seq<nat> := [];
    var h := 0;
    while h < 24
      invariant 0 <= h <= 24 && |runByHour| == h
      invariant forall i :: 0 <= i < h ==> runByHour[i] == Best(grid, days, i)
    {
      var b := BestRun(grid, days, h);
      runByHour := runByHour + [b];
      h := h + 1;
    }
    var peak := -1;
    h := 0;
    while h < 24
      invariant 0 <= h <= 24
      invariant peak == -1 || (0 <= peak < h && runByHour[peak] >= MIN_RUN)
      invariant forall i :: 0 <= i < h && runByHour[i] >= MIN_RUN ==> peak >= 0 && runByHour[i] <= runByHour[peak]
      invariant forall i :: 0 <= i < peak ==> runByHour[i] < runByHour[peak]
    {
      if runByHour[h] >= MIN_RUN && (peak == -1 || runByHour[h] > runByHour[peak]) {
        peak := h;
      }
      h := h + 1;
    }
    if peak == -1 {
      return None;
    }
    var lo, hi := peak, peak;
    while lo - 1 >= 0 && runByHour[lo - 1] >= MIN_RUN
      invariant 0 <= lo <= peak
      invariant forall i :: lo <= i <= peak ==> runByHour[i] >= MIN_RUN
    {
      lo := lo - 1;
    }
    while hi + 1 < 24 && runByHour[hi + 1] >= MIN_RUN
      invariant peak <= hi < 24
      invariant forall i :: lo <= i <= hi ==> runByHour[i] >= MIN_RUN
    {
      hi := hi + 1;
    }
    assert Best(grid, days, peak) == runByHour[peak];
    r := Some(Pattern(lo, hi + 1, runByHour[peak]));
  }

  /** Days are clamped to 1..14. */
  function ClampDays(days: int): nat {
    Min(Max(if days == 0 then 7 else days, 1), 14)
  }

  lemma MidnightIs(sec: int)
    ensures UtcMidnight(sec) <= sec < UtcMidnight(sec) + 86400 && UtcMidnight(sec) % 86400 == 0
  {
  }

  /** The window begins at a midnight, 1 to 14 days long, and ends in the day of now. */
  lemma WindowIs(opt: int, now: int)
    ensures var days := ClampDays(opt); var start := HeatStart(now, days);
      1 <= days <= 14 && (1 <= opt <= 14 ==> days == opt) && (opt == 0 ==> days == 7) && (opt > 14 ==> days == 14) && (opt < 0 ==> days == 1) &&
      start % 86400 == 0 && start + (days - 1) * 86400 <= now < start + days * 86400
  {
    MidnightIs(now);
    var days := ClampDays(opt);
    QuotientIs(HeatStart(now, days), 86400, now / 86400 - (days - 1), 0);
  }

  function HeatStart(now: int, days: nat): int {
    UtcMidnight(now) - (days - 1) * DAY
  }

  /** The status when a window opens. */
  function StatusOf(prior: Option<Entry>): Option<bool> {
    if prior.Some? then Some(HeatOnline(prior.value)) else None
  }

  /** The cell of bucket i; no cell when no second of it is known. */
  function CellAt(before: Option<bool>, rows: seq<Entry>, start: int, now: int, i: nat): Option<Cell> {
    var on, off := BucketSeconds(before, rows, start, i, now, true), BucketSeconds(before, rows, start, i, now, false);
    if on + off == 0 then None else Some(Cell(start + i / 24 * DAY, i % 24, Percent(on, on + off), on + off))
  }

  function CellsUpTo(before: Option<bool>, rows: seq<Entry>, start: int, now: int, n: nat): seq<Cell> {
    if n == 0 then []
    else
      var c := CellAt(before, rows, start, now, n - 1);
      CellsUpTo(before, rows, start, now, n - 1) + (if c.Some? then [c.value] else [])
  }

  function GridOf(before: Option<bool>, rows: seq<Entry>, start: int, now: int, days: nat): (g: Grid)
    ensures IsGrid(g, days)
  {
    seq(days, d requires 0 <= d => seq(24, h requires 0 <= d && 0 <= h =>
      var c := CellAt(before, rows, start, now, d * 24 + h); if c.Some? then Some(c.value.onlinePct) else None))
  }

  lemma SameGrid(a: Grid, b: Grid, days: nat)
    requires IsGrid(a, days) && IsGrid(b, days)
    requires forall d, h :: 0 <= d < days && 0 <= h < 24 ==> a[d][h] == b[d][h]
    ensures a == b
  {
    forall d | 0 <= d < days
      ensures a[d] == b[d]
    {
    }
  }

  /** A cell for each hour of which something is known, and the pattern in these cells. */
  method BuildStatusHeatmap(log: seq<Entry>, device: string, opt: int, now: int)
    returns (days: nat, start: int, cells: seq<Cell>, pattern: Option<Pattern>, ghost before: Option<Entry>)
    requires Sorted(log)
    ensures days == ClampDays(opt) && start == HeatStart(now, days) <= now < start + days * DAY
    ensures start % 86400 == 0 && (1 <= opt <= 14 ==> days == opt) && 1 <= days <= 14
    ensures IsPrior(log, device, start, before)
    ensures exists hours :: AreCells(log, device, start, now, before, days * 24, hours, cells)
    ensures cells == CellsUpTo(StatusOf(before), Window(log, device, start, now), start, now, days * 24)
    ensures IsPattern(GridOf(StatusOf(before), Window(log, device, start, now), start, now, days), days, pattern)
  {
    hide BucketSeconds, Window, IsPrior, HeatOnline, IsPattern, Percent, UtcMidnight, AreCells;
    MidnightIs(now);
    WindowIs(opt, now);
    days := ClampDays(opt);
    start := HeatStart(now, days);
    var prior := Prior(log, device, start);
    var rows := Window(log, device, start, now);
    before := prior;
    ghost var status := StatusOf(prior);
    WindowSorted(log, device, start, now);
    var online, offline := FillBuckets(prior, rows, days, start, now);
    cells := [];
    var grid: Grid := seq(days, d => seq(24, h => None));
    var i := 0;
    while i < days * 24
      invariant 0 <= i <= days * 24 && IsGrid(grid, days)
      invariant cells == CellsUpTo(status, rows, start, now, i)
      invariant forall d, h :: 0 <= d < days && 0 <= h < 24 ==>
        grid[d][h] == if d * 24 + h < i then GridOf(status, rows, start, now, days)[d][h] else None
    {
      var covered := online[i] + offline[i];
      if covered > 0 {
        var d, h := i / 24, i % 24;
        var pct := Percent(online[i], covered);
        grid := grid[d := grid[d][h := Some(pct)]];
        cells := cells + [Cell(start + d * DAY, h, pct, covered)];
      }
      i := i + 1;
    }
    pattern := DetectPattern(grid, days);
    SameGrid(grid, GridOf(status, rows, start, now, days), days);
    ghost var hours := CellsAre(log, device, start, now, prior, days * 24);
  }

  lemma {:induction false} WindowMembers(log: seq<Entry>, device: string, since: int, until: int)
    ensures forall e :: e in Window(log, device, since, until) ==> e in log && since <= e.ts <= until && e.device == device
  {
    if log != [] {
      WindowMembers(log[..|log| - 1], device, since, until);
    }
  }

  lemma {:induction false} WindowAscends(log: seq<Entry>, device: string, since: int, until: int)
    requires Sorted(log)
    ensures Sorted(Window(log, device, since, until))
  {
    if log != [] {
      var n := |log| - 1;
      WindowAscends(log[..n], device, since, until);
      WindowMembers(log[..n], device, since, until);
      var w := Window(log[..n], device, since, until);
      forall i | 0 <= i < |w|
        ensures w[i].ts <= log[n].ts
      {
        assert w[i] in log[..n];
      }
    }
  }

  lemma WindowSorted(log: seq<Entry>, device: string, since: int, until: int)
    requires Sorted(log)
    ensures var w := Window(log, device, since, until); Sorted(w) && forall i :: 0 <= i < |w| ==> w[i] in log && since <= w[i].ts <= until && w[i].device == device
  {
    hide Window;
    WindowMembers(log, device, since, until);
    WindowAscends(log, device, since, until);
  }

  // ----- The log itself ------------------------------------------------------------------------------

  predicate RowIn(r: Entry, device: string, since: int, until: int) {
    r.device == device && since <= r.ts <= until
  }

  /** The window holds every entry of the device inside the interval as often as the log, and nothing
      else. */
  lemma {:induction false} WindowCounts(log: seq<Entry>, device: string, since: int, until: int, e: Entry)
    ensures multiset(Window(log, device, since, until))[e] == if RowIn(e, device, since, until) then multiset(log)[e] else 0
  {
    if log != [] {
      var n := |log| - 1;
      WindowCounts(log[..n], device, since, until, e);
      WindowLast(log, device, since, until);
      hide Window;
      CountMore(log[..n], log[n], e);
      CountMore(Window(log[..n], device, since, until), log[n], e);
      assert log == log[..n] + [log[n]];
    }
  }

  lemma CountMore(rows: seq<Entry>, r: Entry, e: Entry)
    ensures multiset(rows + [r])[e] == multiset(rows)[e] + if r == e then 1 else 0
  {
  }

  /** Place k of the log has a row of the device in [since, s], and no place behind it has one. */
  predicate IsLastRow(log: seq<Entry>, device: string, since: int, s: int, k: nat) {
    k < |log| && RowIn(log[k], device, since, s) && forall i :: k < i < |log| ==> !RowIn(log[i], device, since, s)
  }

  ghost predicate NoRow(log: seq<Entry>, device: string, since: int, s: int) {
    forall i :: 0 <= i < |log| ==> !RowIn(log[i], device, since, s)
  }

  lemma LastRowUnique(log: seq<Entry>, device: string, since: int, s: int, i: nat, k: nat)
    requires IsLastRow(log, device, since, s, i) && IsLastRow(log, device, since, s, k)
    ensures i == k
  {
  }

  /** The last row of a window at or before a second is the last row of the log in that interval. */
  lemma {:induction false} LastInWindow(log: seq<Entry>, device: string, since: int, until: int, s: int) returns (k: nat)
    requires s <= until
    requires Sorted(log)
    ensures var rows := Window(log, device, since, until);
      forall before: Option<bool> :: StatusAt(before, rows, s) == if NoRow(log, device, since, s) then before else StatusAt(None, rows, s)
    ensures !NoRow(log, device, since, s) ==>
      IsLastRow(log, device, since, s, k) && StatusAt(None, Window(log, device, since, until), s) == Some(HeatOnline(log[k]))
  {
    k := 0;
    if log != [] {
      var n := |log| - 1;
      var r := log[n];
      var init, rows := Window(log[..n], device, since, until), Window(log, device, since, until);
      hide Window;
      WindowLast(log, device, since, until);
      if RowIn(r, device, since, s) {
        k := n;
        assert rows[|rows| - 1] == r;
      } else {
        k := LastInWindow(log[..n], device, since, until, s);
        NoRowShorter(log, device, since, s, k);
        if rows != init {
          assert rows[..|rows| - 1] == init;
        }
      }
    }
  }

  lemma WindowLast(log: seq<Entry>, device: string, since: int, until: int)
    requires log != []
    ensures var n := |log| - 1;
      Window(log, device, since, until) ==
        Window(log[..n], device, since, until) + if RowIn(log[n], device, since, until) then [log[n]] else []
  {
  }

  lemma NoRowShorter(log: seq<Entry>, device: string, since: int, s: int, k: nat)
    requires log != [] && !RowIn(log[|log| - 1], device, since, s)
    ensures NoRow(log, device, since, s) <==> NoRow(log[..|log| - 1], device, since, s)
    ensures IsLastRow(log[..|log| - 1], device, since, s, k) ==> IsLastRow(log, device, since, s, k)
  {
  }

  /** How the heatmap reads a status. */
  predicate ReadsOnline(status: string) {
    status != "offline" && status != "offline_timeout"
  }

  /** The device is on, or off, at second s: the last row of the log in [start, s] says so, or, when
      there is none, the row before the window. */
  ghost predicate StateAt(log: seq<Entry>, device: string, start: int, prior: Option<Entry>, s: int, on: bool) {
    if NoRow(log, device, start, s) then prior.Some? && ReadsOnline(prior.value.status) == on
    else exists k: nat :: IsLastRow(log, device, start, s, k) && ReadsOnline(log[k].status) == on
  }

  /** The seconds in [lo, hi) at which it is. */
  ghost function SecondsOf(log: seq<Entry>, device: string, start: int, prior: Option<Entry>, lo: int, hi: int, on: bool): set<int> {
    set s: int | lo <= s < hi && StateAt(log, device, start, prior, s, on)
  }

  lemma StateIs(log: seq<Entry>, device: string, start: int, now: int, prior: Option<Entry>, s: int, on: bool)
    requires Sorted(log) && s <= now
    ensures StatusAt(StatusOf(prior), Window(log, device, start, now), s) == Some(on) <==> StateAt(log, device, start, prior, s, on)
  {
    hide Window, StatusAt;
    var k := LastInWindow(log, device, start, now, s);
    hide IsLastRow, NoRow;
    if !NoRow(log, device, start, s) {
      forall i: nat | IsLastRow(log, device, start, s, i)
        ensures i == k
      {
        LastRowUnique(log, device, start, s, i, k);
      }
    }
  }

  /** Counted seconds are seconds of the log. */
  lemma {:induction false} SecondsAre(log: seq<Entry>, device: string, start: int, now: int, prior: Option<Entry>, lo: int, hi: int, on: bool)
    requires Sorted(log) && hi <= now
    ensures Seconds(StatusOf(prior), Window(log, device, start, now), lo, hi, on) == |SecondsOf(log, device, start, prior, lo, hi, on)|
    decreases hi - lo
  {
    hide StateAt, StatusAt, Window, StatusOf;
    var all := SecondsOf(log, device, start, prior, lo, hi, on);
    if lo < hi {
      var before := SecondsOf(log, device, start, prior, lo, hi - 1, on);
      SecondsAre(log, device, start, now, prior, lo, hi - 1, on);
      StateIs(log, device, start, now, prior, hi - 1, on);
      assert all == before + if StateAt(log, device, start, prior, hi - 1, on) then {hi - 1} else {};
    } else {
      assert all == {};
    }
  }

  /** pct is the percentage of part in whole, to the nearest whole number and up from a half. */
  predicate IsPercent(pct: int, part: int, whole: int) {
    2 * whole * pct <= 200 * part + whole < 2 * whole * (pct + 1)
  }

  lemma PercentIs(part: nat, whole: nat)
    requires 0 < whole && part <= whole
    ensures IsPercent(Percent(part, whole), part, whole) && 0 <= Percent(part, whole) <= 100
  {
    var n, d := 200 * part + whole, 2 * whole;
    var pct := n / d;
    assert n == d * pct + n % d;
    assert d * (pct + 1) == d * pct + d;
    if pct > 100 {
      MulLe(d, 101, pct);
    }
  }

  /** What is known of hour i: the seconds the device was on, and off, until now. */
  ghost function HourOf(log: seq<Entry>, device: string, start: int, now: int, prior: Option<Entry>, i: nat, on: bool): nat {
    var lo := start + i * 3600;
    |SecondsOf(log, device, start, prior, lo, if lo + 3600 < now then lo + 3600 else now, on)|
  }

  /** The cell of hour i tells of it. */
  ghost predicate TellsOf(log: seq<Entry>, device: string, start: int, now: int, prior: Option<Entry>, i: nat, c: Cell) {
    var on, off := HourOf(log, device, start, now, prior, i, true), HourOf(log, device, start, now, prior, i, false);
    c.day == start + i / 24 * 86400 && c.hour == i % 24 && c.coveredSec == on + off && IsPercent(c.onlinePct, on, on + off)
  }

  ghost predicate Covered(log: seq<Entry>, device: string, start: int, now: int, prior: Option<Entry>, i: nat) {
    HourOf(log, device, start, now, prior, i, true) + HourOf(log, device, start, now, prior, i, false) > 0
  }

  lemma HourIs(log: seq<Entry>, device: string, start: int, now: int, prior: Option<Entry>, i: nat, on: bool)
    requires Sorted(log)
    ensures BucketSeconds(StatusOf(prior), Window(log, device, start, now), start, i, now, on) == HourOf(log, device, start, now, prior, i, on)
  {
    hide StatusOf, Window, SecondsOf, Seconds;
    SecondsAre(log, device, start, now, prior, Bucket(start, i), Min(Bucket(start, i + 1), now), on);
  }

  /** There is a cell for each hour of which something is known, and it tells of that hour. */
  lemma CellIs(log: seq<Entry>, device: string, start: int, now: int, prior: Option<Entry>, i: nat)
    requires Sorted(log)
    ensures var c := CellAt(StatusOf(prior), Window(log, device, start, now), start, now, i);
      (c.Some? <==> Covered(log, device, start, now, prior, i)) && (c.Some? ==> TellsOf(log, device, start, now, prior, i, c.value))
  {
    hide BucketSeconds, HourOf, StatusOf, Window, Percent, IsPercent;
    HourIs(log, device, start, now, prior, i, true);
    HourIs(log, device, start, now, prior, i, false);
    var on, off := HourOf(log, device, start, now, prior, i, true), HourOf(log, device, start, now, prior, i, false);
    if on + off > 0 {
      PercentIs(on, on + off);
    }
  }

  /** The hours are the covered ones among the first n, in order, and there is a cell for each. */
  ghost predicate AreCells(log: seq<Entry>, device: string, start: int, now: int, prior: Option<Entry>, n: nat, hours: seq<nat>,
                           cells: seq<Cell>)
  {
    |hours| == |cells| &&
    (forall j, k :: 0 <= j < k < |hours| ==> hours[j] < hours[k]) &&
    (forall i: nat :: i in hours <==> i < n && Covered(log, device, start, now, prior, i)) &&
    forall j :: 0 <= j < |cells| ==> TellsOf(log, device, start, now, prior, hours[j], cells[j])
  }

  /** The cells tell of exactly the covered hours of the window. */
  lemma {:induction false} CellsAre(log: seq<Entry>, device: string, start: int, now: int, prior: Option<Entry>, n: nat) returns (hours: seq<nat>)
    requires Sorted(log)
    ensures AreCells(log, device, start, now, prior, n, hours, CellsUpTo(StatusOf(prior), Window(log, device, start, now), start, now, n))
  {
    hide CellAt, StatusOf, Window, Covered, TellsOf;
    hours := [];
    if n > 0 {
      var before := CellsAre(log, device, start, now, prior, n - 1);
      var cells := CellsUpTo(StatusOf(prior), Window(log, device, start, now), start, now, n - 1);
      CellIs(log, device, start, now, prior, n - 1);
      hours := before;
      if Covered(log, device, start, now, prior, n - 1) {
        var c := CellAt(StatusOf(prior), Window(log, device, start, now), start, now, n - 1).value;
        hours := before + [n - 1];
        CellsNext(log, device, start, now, prior, n - 1, before, cells, c);
      } else {
        CellsStay(log, device, start, now, prior, n - 1, before, cells);
      }
    }
  }

  lemma CellsNext(log: seq<Entry>, device: string, start: int, now: int, prior: Option<Entry>, n: nat, hours: seq<nat>,
                  cells: seq<Cell>, c: Cell)
    requires AreCells(log, device, start, now, prior, n, hours, cells)
    requires Covered(log, device, start, now, prior, n) && TellsOf(log, device, start, now, prior, n, c)
    ensures AreCells(log, device, start, now, prior, n + 1, hours + [n], cells + [c])
  {
    hide Covered, TellsOf;
    forall j | 0 <= j < |hours|
      ensures hours[j] < n
    {
      assert hours[j] in hours;
    }
    forall i: nat
      ensures i in hours + [n] <==> i < n + 1 && Covered(log, device, start, now, prior, i)
    {
      assert i in hours + [n] <==> i in hours || i == n;
    }
  }

  lemma CellsStay(log: seq<Entry>, device: string, start: int, now: int, prior: Option<Entry>, n: nat, hours: seq<nat>, cells: seq<Cell>)
    requires AreCells(log, device, start, now, prior, n, hours, cells) && !Covered(log, device, start, now, prior, n)
    ensures AreCells(log, device, start, now, prior, n + 1, hours, cells)
  {
    hide Covered, TellsOf;
  }

  // ----- What a pattern says ---------------------------------------------------------------------------

  /** On k days in a row from the given one, hour h had a cell below half. */
  predicate BadDays(grid: Grid, days: nat, h: nat, from: nat, k: nat)
    requires IsGrid(grid, days)
  {
    h < 24 && from + k <= days && forall d :: from <= d < from + k ==> grid[d][h].Some? && grid[d][h].value < 50
  }

  ghost predicate BadFor(grid: Grid, days: nat, h: nat, k: nat)
    requires IsGrid(grid, days)
  {
    exists from: nat :: BadDays(grid, days, h, from, k)
  }

  lemma BestIs(grid: Grid, days: nat, h: nat, k: nat)
    requires IsGrid(grid, days) && h < 24
    ensures k <= Best(grid, days, h) <==> BadFor(grid, days, h, k)
  {
    BestIsLongestRun(grid, days, h, days, k);
    hide BestBefore;
    if from: nat :| BadDays(grid, days, h, from, k) {
      assert RunAt(grid, days, h, from, k);
    }
    if HasRun(grid, days, h, days, k) {
      var from :| 0 <= from && from + k <= days && RunAt(grid, days, h, from, k);
      forall d | from <= d < from + k
        ensures grid[d][h].Some? && grid[d][h].value < 50
      {
        assert Problem(grid, days, d, h);
      }
      assert BadDays(grid, days, h, from, k);
    }
  }

  /** A pattern is found exactly when some hour was bad on three days in a row. Then it names the longest
      such run, and the widest stretch of hours, each bad on three days in a row, around the first hour
      that has it. */
  lemma PatternMeans(grid: Grid, days: nat, r: Option<Pattern>)
    requires IsGrid(grid, days) && IsPattern(grid, days, r)
    ensures r.Some? <==> exists h :: 0 <= h < 24 && BadFor(grid, days, h, 3)
    ensures r.Some? ==> var p := r.value;
      0 <= p.hourStart < p.hourEnd <= 24 && 0 <= p.consecutiveDays &&
      (forall h :: p.hourStart <= h < p.hourEnd ==> BadFor(grid, days, h, 3)) &&
      (p.hourStart > 0 ==> !BadFor(grid, days, p.hourStart - 1, 3)) && (p.hourEnd < 24 ==> !BadFor(grid, days, p.hourEnd, 3)) &&
      (exists h :: p.hourStart <= h < p.hourEnd && BadFor(grid, days, h, p.consecutiveDays)) &&
      (forall h: nat, k: nat :: h < 24 && BadFor(grid, days, h, k) ==> k <= p.consecutiveDays) &&
      forall h :: 0 <= h < p.hourStart ==> !BadFor(grid, days, h, p.consecutiveDays)
  {
    hide Best, BadFor;
    forall h: nat, k: nat | h < 24
      ensures k <= Best(grid, days, h) <==> BadFor(grid, days, h, k)
    {
      BestIs(grid, days, h, k);
    }
    if r.Some? {
      var p := r.value;
      var peak :| p.hourStart <= peak < p.hourEnd && Best(grid, days, peak) == p.consecutiveDays;
      assert BadFor(grid, days, peak, p.consecutiveDays) && BadFor(grid, days, p.hourStart, 3);
    }
  }

  /** The grid behind the pattern holds the percentages of the covered hours. */
  lemma GridIs(log: seq<Entry>, device: string, start: int, now: int, prior: Option<Entry>, days: nat, d: nat, h: nat)
    requires Sorted(log) && d < days && h < 24
    ensures var v := GridOf(StatusOf(prior), Window(log, device, start, now), start, now, days)[d][h];
      var i := 24 * d + h; var on, off := HourOf(log, device, start, now, prior, i, true), HourOf(log, device, start, now, prior, i, false);
      (v.Some? <==> on + off > 0) && (v.Some? ==> IsPercent(v.value, on, on + off))
  {
    hide CellAt, StatusOf, Window, HourOf, IsPercent;
    CellIs(log, device, start, now, prior, d * 24 + h);
  }
}
