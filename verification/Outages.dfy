/** Outage detection over the status log, and its agreement with the heatmap. */
module Outages {
  import opened Wrappers
  import opened Timeline

  /** An outage; no end while it is still going on. */
  datatype Outage = Outage(start: int, end: Option<int>)

  /** LAG: the rows whose status differs from that of the row before. */
  function Changes(rows: seq<Entry>): seq<Entry> {
    if rows == [] then []
    else
      var n := |rows| - 1;
      Changes(rows[..n]) + (if n == 0 || QueryOnline(rows[n - 1]) != QueryOnline(rows[n]) then [rows[n]] else [])
  }

  /** LEAD: each offline change with the time of the next change. */
  function Paired(changes: seq<Entry>, i: nat): seq<Outage>
    requires i <= |changes|
  {
    if i == 0 then []
    else
      Paired(changes, i - 1) +
      (if QueryOnline(changes[i - 1]) then []
       else [Outage(changes[i - 1].ts, if i < |changes| then Some(changes[i].ts) else None)])
  }

  /** The outages of one device in a window. */
  function DetectOutages(log: seq<Entry>, device: string, since: int, until: int): seq<Outage> {
    var changes := Changes(Window(log, device, since, until));
    Paired(changes, |changes|)
  }

  // ----- Shape -------------------------------------------------------------------------------------

  /** Changes are in time order and alternate; the last one has the status of the last row. */
  ghost predicate Alternating(changes: seq<Entry>) {
    Sorted(changes) && forall i :: 0 < i < |changes| ==> QueryOnline(changes[i]) != QueryOnline(changes[i - 1])
  }

  lemma {:induction false} ChangesInRows(rows: seq<Entry>)
    ensures forall i :: 0 <= i < |Changes(rows)| ==> Changes(rows)[i] in rows
    ensures rows != [] ==> Changes(rows) != [] && Changes(rows)[0] == rows[0]
  {
    if rows != [] {
      var n := |rows| - 1;
      ChangesInRows(rows[..n]);
      assert rows == rows[..n] + [rows[n]];
    }
  }

  /** A further row behind alternating changes. */
  lemma AlternatingMore(c: seq<Entry>, r: Entry)
    requires Alternating(c) && (c != [] ==> c[|c| - 1].ts <= r.ts && QueryOnline(c[|c| - 1]) != QueryOnline(r))
    ensures Alternating(c + [r])
  {
    hide QueryOnline;
    var d := c + [r];
    forall i, j | 0 <= i < j < |d|
      ensures d[i].ts <= d[j].ts
    {
      assert i < |c| - 1 ==> c[i].ts <= c[|c| - 1].ts;
    }
  }

  lemma {:induction false} ChangesAlternate(rows: seq<Entry>)
    requires Sorted(rows)
    ensures Alternating(Changes(rows))
    ensures rows != [] ==> Changes(rows) != [] && QueryOnline(Changes(rows)[|Changes(rows)| - 1]) == QueryOnline(rows[|rows| - 1])
    ensures rows != [] ==> Changes(rows)[|Changes(rows)| - 1].ts <= rows[|rows| - 1].ts
  {
    hide QueryOnline, Alternating;
    NoneAlternate();
    if rows != [] {
      var n := |rows| - 1;
      ChangesAlternate(rows[..n]);
      var c := Changes(rows[..n]);
      assert n > 0 ==> rows[n - 1].ts <= rows[n].ts;
      if n == 0 || QueryOnline(rows[n - 1]) != QueryOnline(rows[n]) {
        AlternatingMore(c, rows[n]);
      } else {
        assert Changes(rows) == c;
      }
    }
  }

  lemma NoneAlternate()
    ensures Alternating([])
  {
  }

  function Clipped(end: Option<int>, now: int): int {
    end.GetOr(now)
  }

  /** Ordered, disjoint, and only the last may be open. */
  ghost predicate WellShaped(o: seq<Outage>, now: int) {
    (forall i :: 0 <= i < |o| ==> o[i].start <= Clipped(o[i].end, now)) &&
    (forall i :: 0 <= i < |o| - 1 ==> o[i].end.Some? && o[i].end.value <= o[i + 1].start)
  }

  lemma {:induction false} PairedShape(changes: seq<Entry>, i: nat, now: int)
    requires Alternating(changes) && i <= |changes|
    requires forall k :: 0 <= k < |changes| ==> changes[k].ts <= now
    ensures WellShaped(Paired(changes, i), now)
    ensures var o := Paired(changes, i);
      o != [] ==> (o[|o| - 1].end.None? <==> i == |changes| && !QueryOnline(changes[i - 1])) &&
                  (o[|o| - 1].end.Some? && i < |changes| ==> o[|o| - 1].end.value <= changes[i].ts)
  {
    if i > 0 {
      PairedShape(changes, i - 1, now);
      hide QueryOnline;
      assert i > 1 ==> QueryOnline(changes[i - 1]) != QueryOnline(changes[i - 2]);
      assert i < |changes| ==> changes[i - 1].ts <= changes[i].ts;
    }
  }

  // ----- How the query reads the log ---------------------------------------------------------------

  /** The last row at or before second s. */
  function LastAt(rows: seq<Entry>, s: int): Option<Entry> {
    if rows == [] then None
    else if rows[|rows| - 1].ts <= s then Some(rows[|rows| - 1])
    else LastAt(rows[..|rows| - 1], s)
  }

  /** The last row at or before s has a status other than the three that are known. */
  predicate Unknown(rows: seq<Entry>, s: int) {
    var r := LastAt(rows, s);
    r.Some? && !KnownStatus(r.value)
  }

  /** Seconds in [lo, hi) with an unknown status. */
  function UnknownSeconds(rows: seq<Entry>, lo: int, hi: int): nat
    decreases hi - lo
  {
    if hi <= lo then 0 else UnknownSeconds(rows, lo, hi - 1) + if Unknown(rows, hi - 1) then 1 else 0
  }

  lemma {:induction false} UnknownSecondsNone(rows: seq<Entry>, lo: int, hi: int)
    ensures UnknownSeconds(rows, lo, hi) == 0 <==> forall s :: lo <= s < hi ==> !Unknown(rows, s)
    decreases hi - lo
  {
    hide Unknown;
    if lo < hi {
      UnknownSecondsNone(rows, lo, hi - 1);
    }
  }

  /** A row as the query reads it: any status but 'online' is offline. */
  function Read(r: Entry): Entry {
    if KnownStatus(r) then r else r.(status := "offline")
  }

  function ReadAll(rows: seq<Entry>): seq<Entry> {
    seq(|rows|, i requires 0 <= i < |rows| => Read(rows[i]))
  }

  lemma ReadRow(r: Entry)
    ensures KnownStatus(Read(r)) && Read(r).ts == r.ts && QueryOnline(Read(r)) == QueryOnline(r)
    ensures HeatOnline(Read(r)) == (HeatOnline(r) && KnownStatus(r))
  {
  }

  lemma ReadMore(rows: seq<Entry>, more: seq<Entry>)
    ensures ReadAll(rows + more) == ReadAll(rows) + ReadAll(more)
  {
  }

  lemma {:induction false} ReadChanges(rows: seq<Entry>)
    ensures Changes(ReadAll(rows)) == ReadAll(Changes(rows))
  {
    hide Read, QueryOnline;
    if rows != [] {
      var n := |rows| - 1;
      ReadChanges(rows[..n]);
      assert ReadAll(rows)[..n] == ReadAll(rows[..n]);
      ReadRow(rows[n]);
      if n > 0 {
        ReadRow(rows[n - 1]);
      }
      ReadMore(Changes(rows[..n]), [rows[n]]);
      assert ReadAll([rows[n]]) == [Read(rows[n])];
    }
  }

  lemma {:induction false} ReadPaired(changes: seq<Entry>, i: nat)
    requires i <= |changes|
    ensures Paired(ReadAll(changes), i) == Paired(changes, i)
  {
    hide Read, QueryOnline;
    if i > 0 {
      ReadPaired(changes, i - 1);
      ReadRow(changes[i - 1]);
      if i < |changes| {
        ReadRow(changes[i]);
      }
    }
  }

  /** What the heatmap sees after the query's reading: offline where it saw offline, and where the
      status is unknown. */
  lemma {:induction false} ReadStatus(before: Option<bool>, rows: seq<Entry>, s: int)
    ensures StatusAt(before, rows, s) == if LastAt(rows, s).Some? then Some(HeatOnline(LastAt(rows, s).value)) else before
    ensures LastAt(ReadAll(rows), s) == if LastAt(rows, s).Some? then Some(Read(LastAt(rows, s).value)) else None
  {
    hide Read, HeatOnline;
    if rows != [] {
      var n := |rows| - 1;
      ReadRow(rows[n]);
      ReadStatus(before, rows[..n], s);
      assert ReadAll(rows)[..n] == ReadAll(rows[..n]);
    }
  }

  lemma ReadOffline(rows: seq<Entry>, s: int)
    ensures StatusAt(None, ReadAll(rows), s) == Some(false) <==> LastAt(rows, s).Some? && !QueryOnline(LastAt(rows, s).value)
    ensures StatusAt(None, ReadAll(rows), s) == Some(false) <==> StatusAt(None, rows, s) == Some(false) || Unknown(rows, s)
    ensures !(StatusAt(None, rows, s) == Some(false) && Unknown(rows, s))
  {
    ReadStatus(None, rows, s);
    ReadStatus(None, ReadAll(rows), s);
    hide StatusAt, LastAt;
    if LastAt(rows, s).Some? {
      ReadRow(LastAt(rows, s).value);
    }
  }

  lemma {:induction false} ReadSeconds(rows: seq<Entry>, lo: int, hi: int)
    ensures Seconds(None, ReadAll(rows), lo, hi, false) == Seconds(None, rows, lo, hi, false) + UnknownSeconds(rows, lo, hi)
    decreases hi - lo
  {
    hide StatusAt, Unknown;
    if lo < hi {
      ReadSeconds(rows, lo, hi - 1);
      ReadOffline(rows, hi - 1);
    }
  }

  // ----- Pointwise -----------------------------------------------------------------------------------

  ghost predicate InOutage(o: seq<Outage>, now: int, s: int) {
    exists i :: 0 <= i < |o| && o[i].start <= s < Clipped(o[i].end, now)
  }

  /** Added lengths, an open outage clipped to now. */
  function Length(o: seq<Outage>, now: int): int {
    if o == [] then 0 else Length(o[..|o| - 1], now) + Clipped(o[|o| - 1].end, now) - o[|o| - 1].start
  }

  lemma StatusMore(before: Option<bool>, rows: seq<Entry>, r: Entry, s: int)
    ensures StatusAt(before, rows + [r], s) == if r.ts <= s then Some(HeatOnline(r)) else StatusAt(before, rows, s)
  {
    assert (rows + [r])[..|rows|] == rows;
  }

  /** The status by the collapsed rows is the status by all rows. */
  lemma {:induction false} ChangesKeepStatus(rows: seq<Entry>, s: int)
    requires Sorted(rows) && forall i :: 0 <= i < |rows| ==> KnownStatus(rows[i])
    ensures StatusAt(None, Changes(rows), s) == StatusAt(None, rows, s)
  {
    hide StatusAt, HeatOnline, QueryOnline;
    if rows != [] {
      var n := |rows| - 1;
      var r := rows[n];
      ChangesKeepStatus(rows[..n], s);
      StatusLast(None, rows, s);
      if n == 0 || QueryOnline(rows[n - 1]) != QueryOnline(r) {
        StatusMore(None, Changes(rows[..n]), r, s);
      } else {
        assert Changes(rows) == Changes(rows[..n]);
        if r.ts <= s {
          StatusLast(None, rows[..n], s);
          SameReading(rows[n - 1], r);
        }
      }
    }
  }

  lemma StatusLast(before: Option<bool>, rows: seq<Entry>, s: int)
    requires rows != []
    ensures var n := |rows| - 1;
      StatusAt(before, rows, s) == if rows[n].ts <= s then Some(HeatOnline(rows[n])) else StatusAt(before, rows[..n], s)
  {
    StatusMore(before, rows[..|rows| - 1], rows[|rows| - 1], s);
    assert rows == rows[..|rows| - 1] + [rows[|rows| - 1]];
  }

  lemma SameReading(a: Entry, b: Entry)
    requires KnownStatus(a) && KnownStatus(b) && QueryOnline(a) == QueryOnline(b)
    ensures HeatOnline(a) == HeatOnline(b)
  {
  }

  /** When the change after the first i takes place. */
  function NextAt(changes: seq<Entry>, i: nat, now: int): int
    requires i <= |changes|
  {
    if i < |changes| then changes[i].ts else now
  }

  ghost predicate Fits(changes: seq<Entry>, start: int, now: int) {
    Alternating(changes) && start <= now && forall k :: 0 <= k < |changes| ==> start <= changes[k].ts <= now && KnownStatus(changes[k])
  }

  /** Offline from one change to the next. */
  lemma SteadyFrom(changes: seq<Entry>, i: nat, start: int, now: int, s: int)
    requires Fits(changes, start, now) && 0 < i <= |changes| && changes[i - 1].ts <= s < NextAt(changes, i, now)
    ensures StatusAt(None, changes, s) == Some(QueryOnline(changes[i - 1]))
  {
    StatusBetween(None, changes, i, s);
  }

  /** The outages paired so far cover exactly the offline seconds so far. */
  lemma {:induction false} PairedCovers(changes: seq<Entry>, i: nat, start: int, now: int, s: int)
    requires Fits(changes, start, now) && i <= |changes| && s < NextAt(changes, i, now)
    ensures InOutage(Paired(changes, i), now, s) <==> StatusAt(None, changes, s) == Some(false)
  {
    hide StatusAt, QueryOnline;
    if i == 0 {
      StatusBetween(None, changes, 0, s);
    } else {
      var before := Paired(changes, i - 1);
      var added := if QueryOnline(changes[i - 1]) then [] else [Outage(changes[i - 1].ts, if i < |changes| then Some(changes[i].ts) else None)];
      assert Paired(changes, i) == before + added;
      hide Paired, InOutage;
      InConcat(before, added, now, s);
      if !QueryOnline(changes[i - 1]) {
        InSingle(added[0], now, s);
      } else {
        InNone(now, s);
      }
      if s < changes[i - 1].ts {
        PairedCovers(changes, i - 1, start, now, s);
      } else {
        SteadyFrom(changes, i, start, now, s);
        EndedBefore(changes, i - 1, start, now, s);
      }
    }
  }

  lemma InNone(now: int, s: int)
    ensures !InOutage([], now, s)
  {
  }

  lemma InSingle(o: Outage, now: int, s: int)
    ensures InOutage([o], now, s) <==> o.start <= s < Clipped(o.end, now)
  {
    if o.start <= s < Clipped(o.end, now) {
      assert [o][0].start <= s;
    }
  }

  lemma InConcat(a: seq<Outage>, b: seq<Outage>, now: int, s: int)
    ensures InOutage(a + b, now, s) <==> InOutage(a, now, s) || InOutage(b, now, s)
  {
    if InOutage(b, now, s) {
      var i :| 0 <= i < |b| && b[i].start <= s < Clipped(b[i].end, now);
      assert (a + b)[|a| + i] == b[i];
    }
    if InOutage(a, now, s) {
      var i :| 0 <= i < |a| && a[i].start <= s < Clipped(a[i].end, now);
      assert (a + b)[i] == a[i];
    }
  }

  /** Outages paired before a change have ended by then. */
  lemma {:induction false} EndedBefore(changes: seq<Entry>, i: nat, start: int, now: int, s: int)
    requires Fits(changes, start, now) && i < |changes| && changes[i].ts <= s
    ensures !InOutage(Paired(changes, i), now, s)
  {
    hide QueryOnline, KnownStatus;
    if i > 0 {
      EndedBefore(changes, i - 1, start, now, s);
      var added := if QueryOnline(changes[i - 1]) then [] else [Outage(changes[i - 1].ts, Some(changes[i].ts))];
      InConcat(Paired(changes, i - 1), added, now, s);
    }
  }

  lemma {:induction false} PairedLength(changes: seq<Entry>, i: nat, start: int, now: int)
    requires Fits(changes, start, now) && i <= |changes|
    ensures Length(Paired(changes, i), now) == Seconds(None, changes, start, NextAt(changes, i, now), false)
  {
    hide StatusAt, Seconds, KnownStatus, QueryOnline;
    var t := NextAt(changes, i, now);
    if i == 0 {
      forall s | start <= s < t
        ensures StatusAt(None, changes, s) == None
      {
        StatusBetween(None, changes, 0, s);
      }
      SecondsSteady(None, changes, start, t, false, None);
    } else {
      PairedLength(changes, i - 1, start, now);
      var u := changes[i - 1].ts;
      forall s | u <= s < t
        ensures StatusAt(None, changes, s) == Some(QueryOnline(changes[i - 1]))
      {
        SteadyFrom(changes, i, start, now, s);
      }
      SecondsSteady(None, changes, u, t, false, Some(QueryOnline(changes[i - 1])));
      SecondsSplit(None, changes, start, u, t, false);
      var before := Paired(changes, i - 1);
      if !QueryOnline(changes[i - 1]) {
        var o := Paired(changes, i);
        assert o[..|o| - 1] == before;
      } else {
        assert Paired(changes, i) == before;
      }
    }
  }

  lemma {:induction false} SameStatusSameSeconds(a: seq<Entry>, b: seq<Entry>, x: Option<bool>, y: Option<bool>, lo: int, hi: int, on: bool)
    requires forall s :: lo <= s < hi ==> StatusAt(x, a, s) == StatusAt(y, b, s)
    ensures Seconds(x, a, lo, hi, on) == Seconds(y, b, lo, hi, on)
    decreases hi - lo
  {
    if lo < hi {
      SameStatusSameSeconds(a, b, x, y, lo, hi - 1, on);
      assert StatusAt(x, a, hi - 1) == StatusAt(y, b, hi - 1);
    }
  }

  /** What happened before the window matters only up to its first row. */
  lemma {:induction false} BeforeFadesAway(before: Option<bool>, rows: seq<Entry>, s: int)
    requires Sorted(rows) && rows != [] && rows[0].ts <= s
    ensures StatusAt(before, rows, s) == StatusAt(None, rows, s)
  {
    if rows[|rows| - 1].ts > s {
      BeforeFadesAway(before, rows[..|rows| - 1], s);
    }
  }

  lemma ChangesFit(log: seq<Entry>, device: string, start: int, now: int)
    requires Sorted(log) && start <= now
    ensures var rows := ReadAll(Window(log, device, start, now));
      Sorted(rows) && (forall i :: 0 <= i < |rows| ==> KnownStatus(rows[i]) && start <= rows[i].ts <= now) && Fits(Changes(rows), start, now)
    ensures var changes := Changes(ReadAll(Window(log, device, start, now)));
      DetectOutages(log, device, start, now) == Paired(changes, |changes|)
  {
    hide KnownStatus, Window, QueryOnline, Changes, Read, Paired;
    var window := Window(log, device, start, now);
    var rows := ReadAll(window);
    WindowSorted(log, device, start, now);
    forall i | 0 <= i < |rows|
      ensures KnownStatus(rows[i]) && rows[i].ts == window[i].ts
    {
      ReadRow(window[i]);
    }
    ChangesAlternate(rows);
    ChangesInRows(rows);
    ReadChanges(window);
    ReadPaired(Changes(window), |Changes(window)|);
  }

  /** The last row of the window at or before a second is the last row of the log in that interval. */
  lemma {:induction false} LastInLog(log: seq<Entry>, device: string, start: int, now: int, s: int) returns (k: nat)
    requires Sorted(log) && s <= now
    ensures NoRow(log, device, start, s) ==> LastAt(Window(log, device, start, now), s) == None
    ensures !NoRow(log, device, start, s) ==> IsLastRow(log, device, start, s, k) && LastAt(Window(log, device, start, now), s) == Some(log[k])
  {
    k := 0;
    if log != [] {
      var n := |log| - 1;
      var init, rows := Window(log[..n], device, start, now), Window(log, device, start, now);
      hide Window;
      WindowLast(log, device, start, now);
      if RowIn(log[n], device, start, s) {
        k := n;
        assert rows[|rows| - 1] == log[n];
      } else {
        k := LastInLog(log[..n], device, start, now, s);
        NoRowShorter(log, device, start, s, k);
        if rows != init {
          assert rows[..|rows| - 1] == init;
        }
      }
    }
  }

  /** At second s the last row of the device in [start, s] is not 'online'. */
  ghost predicate NotOnline(log: seq<Entry>, device: string, start: int, s: int) {
    exists k: nat :: IsLastRow(log, device, start, s, k) && log[k].status != "online"
  }

  lemma NotOnlineIs(log: seq<Entry>, device: string, start: int, now: int, s: int)
    requires Sorted(log) && s <= now
    ensures NotOnline(log, device, start, s) <==>
            var r := LastAt(Window(log, device, start, now), s); r.Some? && !QueryOnline(r.value)
  {
    hide Window, LastAt;
    var k := LastInLog(log, device, start, now, s);
    if i: nat :| IsLastRow(log, device, start, s, i) && !NoRow(log, device, start, s) {
      LastRowUnique(log, device, start, s, i, k);
    }
  }

  /** Whatever the statuses: the outages of a window are in order and disjoint, only the last may be
      open, and a second lies in an outage exactly when the last row that the log has of the device
      from the opening of the window up to then is not 'online'. */
  lemma OutagesAreOfflineTime(log: seq<Entry>, device: string, start: int, now: int)
    requires Sorted(log) && start <= now
    ensures WellShaped(DetectOutages(log, device, start, now), now)
    ensures forall s :: s < now ==> (InOutage(DetectOutages(log, device, start, now), now, s) <==> NotOnline(log, device, start, s))
  {
    hide Window, Changes, Paired, KnownStatus, StatusAt, InOutage, WellShaped, QueryOnline, DetectOutages, ReadAll, LastAt, NotOnline;
    var window := Window(log, device, start, now);
    var rows := ReadAll(window);
    ChangesFit(log, device, start, now);
    var c := Changes(rows);
    PairedShape(c, |c|, now);
    forall s | s < now
      ensures InOutage(Paired(c, |c|), now, s) <==> NotOnline(log, device, start, s)
    {
      PairedCovers(c, |c|, start, now, s);
      ChangesKeepStatus(rows, s);
      ReadOffline(window, s);
      NotOnlineIs(log, device, start, now, s);
    }
  }

  /** The outage that begins with change j. */
  predicate IsOutage(changes: seq<Entry>, j: nat, o: Outage) {
    j < |changes| && !QueryOnline(changes[j]) && o.start == changes[j].ts &&
    if j + 1 < |changes| then o.end == Some(changes[j + 1].ts) && QueryOnline(changes[j + 1]) else o.end == None
  }

  lemma {:induction false} PairedAre(changes: seq<Entry>, i: nat, m: nat) returns (j: nat)
    requires Alternating(changes) && i <= |changes| && m < |Paired(changes, i)|
    ensures IsOutage(changes, j, Paired(changes, i)[m])
  {
    var before := Paired(changes, i - 1);
    if m < |before| {
      j := PairedAre(changes, i - 1, m);
    } else {
      j := i - 1;
    }
  }

  /** The log has a row of the device in the window at that time, online or not. */
  ghost predicate RowAt(log: seq<Entry>, device: string, start: int, now: int, ts: int, online: bool) {
    exists k :: 0 <= k < |log| && RowIn(log[k], device, start, now) && log[k].ts == ts && (log[k].status == "online") == online
  }

  lemma ChangeIsRow(log: seq<Entry>, device: string, start: int, now: int, r: Entry)
    requires Sorted(log) && r in Changes(Window(log, device, start, now))
    ensures RowAt(log, device, start, now, r.ts, QueryOnline(r))
  {
    var window := Window(log, device, start, now);
    ChangesInRows(window);
    WindowSorted(log, device, start, now);
    hide Changes, Window;
    var k :| 0 <= k < |log| && log[k] == r;
  }

  /** An outage begins with a row that is not 'online' and ends with one that is; so no outage is split. */
  lemma OutagesEndOnline(log: seq<Entry>, device: string, start: int, now: int, m: nat)
    requires Sorted(log) && m < |DetectOutages(log, device, start, now)|
    ensures var o := DetectOutages(log, device, start, now)[m];
      RowAt(log, device, start, now, o.start, false) && (o.end.Some? ==> RowAt(log, device, start, now, o.end.value, true))
  {
    hide Changes, Window, Paired, QueryOnline, RowAt, Alternating;
    var c := Changes(Window(log, device, start, now));
    WindowSorted(log, device, start, now);
    ChangesAlternate(Window(log, device, start, now));
    var j := PairedAre(c, |c|, m);
    ChangeIsRow(log, device, start, now, c[j]);
    if j + 1 < |c| {
      ChangeIsRow(log, device, start, now, c[j + 1]);
    }
  }

  /** The seconds from the opening of the window to its first row. */
  function Leading(rows: seq<Entry>, start: int, now: int): int {
    (if rows == [] then now else rows[0].ts) - start
  }

  /** A row before the window counts for the stretch up to the first row only. */
  lemma SecondsBefore(before: Option<bool>, rows: seq<Entry>, start: int, now: int)
    requires Sorted(rows) && start <= now && forall i :: 0 <= i < |rows| ==> start <= rows[i].ts <= now
    ensures Seconds(before, rows, start, now, false) ==
            Seconds(None, rows, start, now, false) + if before == Some(false) then Leading(rows, start, now) else 0
  {
    hide StatusAt, Seconds;
    var first := start + Leading(rows, start, now);
    forall s | start <= s < first
      ensures StatusAt(before, rows, s) == before && StatusAt(None, rows, s) == None
    {
      StatusBetween(before, rows, 0, s);
      StatusBetween(None, rows, 0, s);
    }
    SecondsSteady(before, rows, start, first, false, before);
    SecondsSteady(None, rows, start, first, false, None);
    forall s | first <= s < now
      ensures StatusAt(before, rows, s) == StatusAt(None, rows, s)
    {
      BeforeFadesAway(before, rows, s);
    }
    SameStatusSameSeconds(rows, rows, before, None, first, now, false);
    SecondsSplit(before, rows, start, first, now, false);
    SecondsSplit(None, rows, start, first, now, false);
  }

  lemma OutageLength(log: seq<Entry>, device: string, start: int, now: int)
    requires Sorted(log) && start <= now
    ensures var rows := Window(log, device, start, now);
      Length(DetectOutages(log, device, start, now), now) == Seconds(None, rows, start, now, false) + UnknownSeconds(rows, start, now)
  {
    hide Window, Changes, Paired, KnownStatus, StatusAt, Seconds, Length, ReadAll, DetectOutages, UnknownSeconds;
    var window := Window(log, device, start, now);
    var rows := ReadAll(window);
    ChangesFit(log, device, start, now);
    var c := Changes(rows);
    PairedLength(c, |c|, start, now);
    forall s
      ensures StatusAt(None, c, s) == StatusAt(None, rows, s)
    {
      ChangesKeepStatus(rows, s);
    }
    SameStatusSameSeconds(c, rows, None, None, start, now, false);
    ReadSeconds(window, start, now);
  }

  /** Offline seconds of the heatmap against outages, for any statuses and any row before the
      window. The outage query pairs forward from a real offline row only, so a device that was
      already offline when the window opened has no outage up to its first row. Apart from that
      stretch the two agree exactly when at no second of the window the last row has a status
      other than 'online', 'offline' and 'offline_timeout'. */
  lemma OutagesAgreeWithHeatmap(log: seq<Entry>, device: string, start: int, now: int, prior: Option<Entry>)
    requires Sorted(log) && start <= now && IsPrior(log, device, start, prior)
    ensures var rows := Window(log, device, start, now);
      var heat, outages := Seconds(StatusOf(prior), rows, start, now, false), Length(DetectOutages(log, device, start, now), now);
      var leading := if StatusOf(prior) == Some(false) then Leading(rows, start, now) else 0;
      heat + UnknownSeconds(rows, start, now) == outages + leading &&
      (heat == outages + leading <==> forall s :: start <= s < now ==> !Unknown(rows, s))
  {
    hide Window, Seconds, Length, DetectOutages, UnknownSeconds, Unknown, IsPrior;
    var rows := Window(log, device, start, now);
    WindowSorted(log, device, start, now);
    SecondsBefore(StatusOf(prior), rows, start, now);
    OutageLength(log, device, start, now);
    UnknownSecondsNone(rows, start, now);
  }

  lemma {:induction false} LastAtIsRow(rows: seq<Entry>, s: int)
    ensures LastAt(rows, s).Some? ==> LastAt(rows, s).value in rows
  {
    if rows != [] {
      LastAtIsRow(rows[..|rows| - 1], s);
    }
  }

  /** With the statuses that are written, outages and the heatmap agree but for the leading stretch. */
  lemma WrittenStatusesAgree(log: seq<Entry>, device: string, start: int, now: int, prior: Option<Entry>)
    requires Sorted(log) && start <= now && IsPrior(log, device, start, prior)
    requires forall r :: r in Window(log, device, start, now) ==> KnownStatus(r)
    ensures var rows := Window(log, device, start, now);
      Seconds(StatusOf(prior), rows, start, now, false) ==
      Length(DetectOutages(log, device, start, now), now) + if StatusOf(prior) == Some(false) then Leading(rows, start, now) else 0
  {
    hide Window, Seconds, Length, DetectOutages, IsPrior, LastAt, Leading;
    var rows := Window(log, device, start, now);
    OutagesAgreeWithHeatmap(log, device, start, now, prior);
    forall s | start <= s < now
      ensures !Unknown(rows, s)
    {
      LastAtIsRow(rows, s);
    }
  }

  /** An instance of the disagreement: one row with another status, which no writer passes. */
  lemma OtherStatusDisagrees()
    ensures var log := [Entry("d", 0, "rebooting")];
      IsPrior(log, "d", 0, None) && Unknown(Window(log, "d", 0, 10), 0) &&
      Seconds(None, Window(log, "d", 0, 10), 0, 10, false) == 0 && Length(DetectOutages(log, "d", 0, 10), 10) == 10
  {
    var r := Entry("d", 0, "rebooting");
    var log := [r];
    assert log[..0] == [];
    assert Window(log, "d", 0, 10) == log;
    assert Changes(log) == log;
    assert Paired(log, 0) == [];
    assert DetectOutages(log, "d", 0, 10) == [Outage(0, None)];
    assert [Outage(0, None)][..0] == [];
    SecondsSteady(None, log, 0, 10, false, Some(true));
  }
}
