/** The retention sweep of the status log: device by device, in bounded batches. */
module StatusPrune {
  import opened Arithmetic
  import opened Sets
  import opened Wrappers

  /** A row of device_status_log. A device id is its rank in the collation order; 0 is the
      empty string, from which the walk over the devices starts. */
  datatype Row = Row(id: int, device: nat, ts: int)

  type Table = set<Row>

  predicate UniqueIds(rows: Table) {
    forall r, q :: r in rows && q in rows && r.id == q.id ==> r == q
  }

  /** ORDER BY timestamp DESC, id DESC */
  predicate Newer(q: Row, r: Row) {
    q.ts > r.ts || (q.ts == r.ts && q.id > r.id)
  }

  function OfDevice(rows: Table, device: nat): Table {
    set r | r in rows && r.device == device
  }

  function OldOf(rows: Table, device: nat, cutoff: int): Table {
    set r | r in rows && r.device == device && r.ts < cutoff
  }

  /** How many rows of the set are newer. */
  function Rank(rows: Table, r: Row): nat {
    |set q | q in rows && Newer(q, r)|
  }

  /** The newest k rows. */
  function Top(rows: Table, k: nat): Table {
    set r | r in rows && Rank(rows, r) < k
  }

  // ----- Ranks ----------------------------------------------------------------------------------

  lemma {:induction false} HasOldest(rows: Table) returns (m: Row)
    requires UniqueIds(rows) && rows != {}
    ensures m in rows && forall r :: r in rows && r != m ==> Newer(r, m)
    decreases |rows|
  {
    var x :| x in rows;
    var rest := rows - {x};
    if rest == {} {
      assert rows == {x};
      m := x;
    } else {
      var o := HasOldest(rest);
      m := if Newer(x, o) then o else x;
      forall r | r in rows && r != m
        ensures Newer(r, m)
      {
        assert r != x ==> r in rest;
        assert m == x ==> Newer(o, x);
      }
    }
  }

  lemma RankWithoutOldest(rows: Table, m: Row, r: Row)
    requires UniqueIds(rows) && m in rows && (forall q :: q in rows && q != m ==> Newer(q, m)) && r in rows
    ensures r != m ==> Rank(rows, r) == Rank(rows - {m}, r)
    ensures Rank(rows, m) == |rows| - 1
  {
    if r != m {
      assert (set q | q in rows && Newer(q, r)) == (set q | q in rows - {m} && Newer(q, r));
    }
    assert (set q | q in rows && Newer(q, m)) == rows - {m};
  }

  lemma TopWithoutOldest(rows: Table, m: Row, k: nat)
    requires UniqueIds(rows) && m in rows && (forall q :: q in rows && q != m ==> Newer(q, m))
    ensures Top(rows, k) == Top(rows - {m}, k) + if |rows| - 1 < k then {m} else {}
  {
    hide Newer, Rank;
    forall r | r in rows
      ensures (r != m ==> Rank(rows, r) == Rank(rows - {m}, r)) && Rank(rows, m) == |rows| - 1
    {
      RankWithoutOldest(rows, m, r);
    }
  }

  /** The newest k rows are k rows, or all of them. */
  lemma {:induction false} TopCount(rows: Table, k: nat)
    requires UniqueIds(rows)
    ensures |Top(rows, k)| == Min(k, |rows|)
    ensures k >= |rows| ==> Top(rows, k) == rows
    decreases |rows|
  {
    if rows == {} {
      assert Top(rows, k) == {};
    } else {
      var m := HasOldest(rows);
      var rest := rows - {m};
      TopCount(rest, k);
      hide Top, Rank, Newer;
      TopWithoutOldest(rows, m, k);
    }
  }

  /** A row newer than another one has fewer rows above it. */
  lemma RankFalls(rows: Table, q: Row, r: Row)
    requires q in rows && Newer(q, r)
    ensures Rank(rows, q) < Rank(rows, r)
  {
    var above := set p | p in rows && Newer(p, q);
    var all := set p | p in rows && Newer(p, r);
    assert above + {q} <= all;
    SubsetCount(above + {q}, all);
    assert |above + {q}| == |above| + 1;
  }

  /** Every row outside the newest k is older than each of them. */
  lemma KeptAreNewer(rows: Table, r: Row, k: nat)
    requires UniqueIds(rows) && r in rows && r !in Top(rows, k)
    ensures forall q :: q in Top(rows, k) ==> Newer(q, r)
  {
    forall q | q in Top(rows, k)
      ensures Newer(q, r)
    {
      if !Newer(q, r) {
        assert Newer(r, q);
        RankFalls(rows, r, q);
      }
    }
  }

  /** Removing rows beyond the newest k does not change which the newest k are. */
  lemma TopStable(rows: Table, less: Table, k: nat)
    requires UniqueIds(rows) && less <= rows && Top(rows, k) <= less
    ensures Top(less, k) == Top(rows, k)
  {
    forall r | r in rows
      ensures r in Top(rows, k) ==> r in less && Rank(less, r) < k
      ensures r in less && r !in Top(rows, k) ==> Rank(less, r) >= k
    {
      var above := set q | q in rows && Newer(q, r);
      var left := set q | q in less && Newer(q, r);
      SubsetCount(left, above);
      if r in less && r !in Top(rows, k) {
        KeptAreNewer(rows, r, k);
        assert Top(rows, k) <= left;
        SubsetCount(Top(rows, k), left);
        TopCount(rows, k);
        if |rows| <= k {
          assert false;
        }
      }
    }
  }

  // ----- The one-shot meaning of a sweep --------------------------------------------------------

  function Young(rows: Table, device: nat, cutoff: int): Table {
    OfDevice(rows, device) - OldOf(rows, device, cutoff)
  }

  /** What retention and the cap leave of one device's rows; a cap of 0 or less means no cap. */
  function Kept(rows: Table, device: nat, cutoff: int, cap: int): Table {
    if cap > 0 then Top(Young(rows, device, cutoff), cap) else Young(rows, device, cutoff)
  }

  /** Every device pruned in one go. */
  function OneShot(rows: Table, cutoff: int, cap: int): Table {
    set r | r in rows && r in Kept(rows, r.device, cutoff, cap)
  }

  /** The devices up to last have been pruned, except the one whose id is empty. */
  function SweptTo(rows: Table, last: nat, cutoff: int, cap: int): Table {
    set r | r in rows && (r.device == 0 || r.device > last || r in Kept(rows, r.device, cutoff, cap))
  }

  function Swept(rows: Table, cutoff: int, cap: int): Table {
    set r | r in rows && (r.device == 0 || r in Kept(rows, r.device, cutoff, cap))
  }

  /** A device loses nothing exactly when none of its rows is past retention and the cap holds all. */
  lemma KeptIsAll(rows: Table, device: nat, cutoff: int, cap: int)
    requires UniqueIds(rows)
    ensures Kept(rows, device, cutoff, cap) == OfDevice(rows, device) <==>
            OldOf(rows, device, cutoff) == {} && (cap > 0 ==> |OfDevice(rows, device)| <= cap)
  {
    var all, expired, young := OfDevice(rows, device), OldOf(rows, device, cutoff), Young(rows, device, cutoff);
    assert expired <= all;
    if cap > 0 {
      TopCount(young, cap);
    }
    hide Top, OfDevice, OldOf;
    if expired == {} {
      assert young == all;
    } else {
      var r :| r in expired;
      assert r in all && r !in young;
    }
  }

  /** The walk starts after the empty id, so the sweep does what the one-shot statement would do
      exactly when the rows with an empty device id are within retention and cap. The writer makes
      no such rows, and without them the two always agree. */
  lemma SweptIsOneShot(rows: Table, cutoff: int, cap: int)
    requires UniqueIds(rows)
    ensures Swept(rows, cutoff, cap) == OneShot(rows, cutoff, cap) <==>
            OldOf(rows, 0, cutoff) == {} && (cap > 0 ==> |OfDevice(rows, 0)| <= cap)
    ensures (forall r :: r in rows ==> r.device != 0) ==> Swept(rows, cutoff, cap) == OneShot(rows, cutoff, cap)
  {
    KeptIsAll(rows, 0, cutoff, cap);
    hide Top, OldOf, Young;
    var swept := Swept(rows, cutoff, cap);
    var shot := OneShot(rows, cutoff, cap);
    assert Kept(rows, 0, cutoff, cap) <= OfDevice(rows, 0);
    if swept == shot {
      forall r | r in OfDevice(rows, 0)
        ensures r in Kept(rows, 0, cutoff, cap)
      {
        assert r in swept;
        assert r in shot;
      }
    } else {
      assert shot <= swept;
      var r :| r in swept && r !in shot;
      assert r in OfDevice(rows, 0);
    }
  }

  /** A row past retention with an empty device id: the sweep leaves it, the one-shot statement
      would not. */
  lemma EmptyIdSurvives()
    ensures var rows := {Row(1, 0, 0)}; Swept(rows, 1, 0) == rows && OneShot(rows, 1, 0) == {}
  {
    var r := Row(1, 0, 0);
    assert r in OldOf({r}, 0, 1);
  }

  /** After a sweep each device holds at most cap rows, none past retention, and a second sweep
      finds nothing to delete. */
  lemma SweepSettles(rows: Table, cutoff: int, cap: int, device: nat)
    requires UniqueIds(rows) && device != 0
    ensures OfDevice(Swept(rows, cutoff, cap), device) == Kept(rows, device, cutoff, cap)
    ensures OldOf(Swept(rows, cutoff, cap), device, cutoff) == {}
    ensures cap > 0 ==> |OfDevice(Swept(rows, cutoff, cap), device)| == Min(cap, |Young(rows, device, cutoff)|)
    ensures Kept(Swept(rows, cutoff, cap), device, cutoff, cap) == Kept(rows, device, cutoff, cap)
  {
    var after := Swept(rows, cutoff, cap);
    var young := Young(rows, device, cutoff);
    var kept := Kept(rows, device, cutoff, cap);
    assert kept <= young;
    assert OfDevice(after, device) == kept;
    assert OldOf(after, device, cutoff) == {};
    assert Young(after, device, cutoff) == kept;
    if cap > 0 {
      TopCount(young, cap);
      TopStable(young, kept, cap);
    }
  }

  /** Rank goes by time and then by id. */
  lemma LaterRanksLower(rows: Table, q: Row, r: Row)
    requires q in rows && r in rows && (q.ts > r.ts || (q.ts == r.ts && q.id > r.id))
    ensures Rank(rows, q) < Rank(rows, r)
  {
    var a, b := set x | x in rows && Newer(x, q), set x | x in rows && Newer(x, r);
    assert a <= b - {q} && q in b;
    SubsetCount(a, b - {q});
  }

  /** The newest k rows are later than all others, or as late with a larger id. */
  lemma TopIsNewest(rows: Table, k: nat, q: Row, r: Row)
    requires UniqueIds(rows) && q in Top(rows, k) && r in rows && r !in Top(rows, k)
    ensures q.ts > r.ts || (q.ts == r.ts && q.id > r.id)
  {
    hide Rank;
    if !(q.ts > r.ts || (q.ts == r.ts && q.id > r.id)) {
      LaterRanksLower(rows, r, q);
    }
  }

  /** The newest rows of each device survive, and no others: what is past retention goes, and when a row
      within retention goes, exactly cap rows of its device survive, each of them later, or as late with
      a larger id. Without a cap nothing else goes. */
  lemma NewestSurvive(rows: Table, cutoff: int, cap: int, r: Row, q: Row)
    requires UniqueIds(rows) && r in rows && r.device != 0
    ensures r in Swept(rows, cutoff, cap) ==> r.ts >= cutoff
    ensures r.ts >= cutoff && r !in Swept(rows, cutoff, cap) ==>
      cap > 0 && |OfDevice(Swept(rows, cutoff, cap), r.device)| == cap &&
      (q in Swept(rows, cutoff, cap) && q.device == r.device ==> q.ts > r.ts || (q.ts == r.ts && q.id > r.id))
  {
    var young := Young(rows, r.device, cutoff);
    if cap > 0 {
      TopGrows(young, cap, cap);
    }
    hide Rank, Top;
    if r.ts >= cutoff && r !in Swept(rows, cutoff, cap) {
      assert r in young && cap > 0 && r !in Top(young, cap);
      SweepSettles(rows, cutoff, cap, r.device);
      TopCount(young, cap);
      if q in Swept(rows, cutoff, cap) && q.device == r.device {
        assert q in Top(young, cap);
        TopIsNewest(young, cap, q, r);
      }
    }
  }

  // ----- The statements and the batch loops -----------------------------------------------------

  method SomeOf(rows: Table, n: nat) returns (some: Table)
    requires n <= |rows|
    ensures some <= rows && |some| == n
  {
    some := {};
    while |some| < n
      invariant some <= rows && |some| <= n
      decreases n - |some|
    {
      if some == rows {
        assert false;
      }
      SubsetCount(some, rows);
      var r :| r in rows - some;
      some := some + {r};
    }
  }

  predicate IsNext(rows: Table, last: nat, device: nat) {
    device > last && (exists r :: r in rows && r.device == device)
    && forall r :: r in rows && r.device > last ==> r.device >= device
  }

  /** SELECT device_id WHERE device_id > last ORDER BY device_id LIMIT 1 */
  method NextDevice(rows: Table, last: nat) returns (next: Option<nat>)
    ensures next.None? ==> forall r :: r in rows ==> r.device <= last
    ensures next.Some? ==> IsNext(rows, last, next.value)
  {
    next := None;
    var todo := rows;
    while todo != {}
      invariant todo <= rows
      invariant next.None? ==> forall r :: r in rows - todo ==> r.device <= last
      invariant next.Some? ==> next.value > last && (exists r :: r in rows && r.device == next.value)
      invariant next.Some? ==> forall r :: r in rows - todo && r.device > last ==> r.device >= next.value
      decreases |todo|
    {
      var r :| r in todo;
      if r.device > last && (next.None? || r.device < next.value) {
        next := Some(r.device);
      }
      todo := todo - {r};
    }
  }

  /** One batch of the cap deletion: it removes only rows beyond the newest cap, a full batch of
      them unless fewer are left. */
  lemma CapStep(start: Table, before: Table, after: Table, device: nat, cap: nat, batch: nat)
    requires UniqueIds(start) && before <= start && after <= before && batch >= 1
    requires start - before <= OfDevice(start, device) - Top(OfDevice(start, device), cap)
    requires before - after == Top(OfDevice(before, device), cap + batch) - Top(OfDevice(before, device), cap)
    ensures start - after <= OfDevice(start, device) - Top(OfDevice(start, device), cap)
    ensures |start - after| == |start - before| + |before - after|
    ensures |before - after| < batch ==> OfDevice(after, device) == Top(OfDevice(start, device), cap)
    ensures |OfDevice(after, device)| == |OfDevice(before, device)| - |before - after|
  {
    hide *;
    var mine, left := OfDevice(start, device), OfDevice(before, device);
    CapFrame(start, before, after, device, Top(mine, cap), Top(left, cap), Top(left, cap + batch)) by {
      TopGrows(mine, cap, cap);
      TopGrows(left, cap, cap + batch);
    }
    UniqueBelow(start, mine);
    UniqueBelow(start, left);
    TopStable(mine, left, cap);
    TopGrows(left, cap, cap + batch);
    TopCount(left, cap);
    TopCount(left, cap + batch);
    CapCount(left, Top(left, cap), Top(left, cap + batch), cap, batch);
    CountThrough(start, before, after);
  }

  lemma CapFrame(start: Table, before: Table, after: Table, device: nat, kept: Table, top: Table, more: Table)
    requires after <= before <= start && before - after == more - top
    requires start - before <= OfDevice(start, device) - kept
    requires kept <= OfDevice(start, device) && top <= more <= OfDevice(before, device)
    ensures OfDevice(start, device) <= start && OfDevice(before, device) <= start
    ensures OfDevice(before, device) <= OfDevice(start, device) && kept <= OfDevice(before, device)
    ensures OfDevice(after, device) == OfDevice(before, device) - (more - top)
    ensures top == kept ==> start - after <= OfDevice(start, device) - kept
  {
    assert start - after == (start - before) + (more - top);
    assert OfDevice(before, device) <= OfDevice(start, device);
  }

  lemma CapCount(left: Table, top: Table, more: Table, cap: nat, batch: nat)
    requires top <= more <= left && |top| == Min(cap, |left|) && |more| == Min(cap + batch, |left|)
    requires cap + batch >= |left| ==> more == left
    ensures |more - top| < batch ==> left - (more - top) == top
    ensures |left - (more - top)| == |left| - |more - top|
  {
    SubsetCount(top, more);
    SubsetCount(more - top, left);
  }

  lemma UniqueBelow(rows: Table, less: Table)
    requires UniqueIds(rows) && less <= rows
    ensures UniqueIds(less)
  {
  }

  lemma CountThrough(start: Table, before: Table, after: Table)
    requires after <= before <= start
    ensures |start - after| == |start - before| + |before - after|
  {
    assert start - after == (start - before) + (before - after);
  }

  lemma TopGrows(rows: Table, k: nat, l: nat)
    requires k <= l
    ensures Top(rows, k) <= Top(rows, l) <= rows
  {
  }

  /** Pruning the next device extends the swept part of the table by that device. */
  lemma DeviceStep(start: Table, before: Table, young: Table, after: Table, prev: nat, device: nat, cutoff: int, cap: int)
    requires before == SweptTo(start, prev, cutoff, cap) && IsNext(before, prev, device)
    requires young == before - OldOf(before, device, cutoff)
    requires cap <= 0 ==> after == young
    requires cap > 0 ==> after == young - (OfDevice(young, device) - Top(OfDevice(young, device), cap))
    ensures after == SweptTo(start, device, cutoff, cap)
    ensures |start - after| == |start - before| + |before - young| + |young - after|
  {
    hide Top, Rank, Newer, IsNext, SweptTo;
    SweptBelow(start, prev, cutoff, cap);
    CountThrough(start, before, young);
    CountThrough(start, young, after);
    forall r: Row
      ensures r in after <==> r in SweptTo(start, device, cutoff, cap)
    {
      RowSwept(start, before, young, after, prev, device, cutoff, cap, r);
    }
  }

  lemma SweptBelow(start: Table, last: nat, cutoff: int, cap: int)
    ensures SweptTo(start, last, cutoff, cap) <= start
  {
  }

  lemma RowSwept(start: Table, before: Table, young: Table, after: Table, prev: nat, device: nat, cutoff: int, cap: int, r: Row)
    requires before == SweptTo(start, prev, cutoff, cap) && IsNext(before, prev, device)
    requires young == before - OldOf(before, device, cutoff)
    requires cap <= 0 ==> after == young
    requires cap > 0 ==> after == young - (OfDevice(young, device) - Top(OfDevice(young, device), cap))
    ensures r in after <==> r in SweptTo(start, device, cutoff, cap)
  {
    hide Top, Rank, Newer;
    if r.device == device {
      assert OfDevice(before, device) == OfDevice(start, device);
      assert OldOf(before, device, cutoff) == OldOf(start, device, cutoff);
      assert OfDevice(young, device) == Young(start, device, cutoff);
      if cap > 0 {
        TopGrows(OfDevice(young, device), cap, cap);
      }
    } else if prev < r.device < device {
      assert r !in before;
    }
  }

  lemma Closer(start: Table, before: Table, prev: nat, device: nat)
    requires before <= start && IsNext(before, prev, device)
    ensures (set r | r in start && r.device > device) < (set r | r in start && r.device > prev)
  {
    var r :| r in before && r.device == device;
    var all := set r | r in start && r.device > prev;
    assert r in all;
  }

  class StatusLog {
    var rows: Table
    var running: bool

    constructor (table: Table)
      ensures rows == table && !running
    {
      rows, running := table, false;
    }

    /** DELETE of at most lim rows of the device past retention, whichever the engine picks. */
    method DelOld(device: nat, cutoff: int, lim: nat) returns (changes: nat)
      modifies this`rows
      ensures rows <= old(rows) && old(rows) - rows <= OldOf(old(rows), device, cutoff)
      ensures changes == |old(rows) - rows| == Min(lim, |OldOf(old(rows), device, cutoff)|)
    {
      var expired := OldOf(rows, device, cutoff);
      var gone := SomeOf(expired, Min(lim, |expired|));
      rows := rows - gone;
      changes := |gone|;
      assert old(rows) - rows == gone;
    }

    /** DELETE of the rows at offsets cap .. cap + lim of the device, newest first. */
    method DelCap(device: nat, lim: nat, cap: nat) returns (changes: nat)
      modifies this`rows
      ensures old(rows) - rows == Top(OfDevice(old(rows), device), cap + lim) - Top(OfDevice(old(rows), device), cap)
      ensures rows <= old(rows) && changes == |old(rows) - rows|
    {
      var mine := OfDevice(rows, device);
      var gone := Top(mine, cap + lim) - Top(mine, cap);
      rows := rows - gone;
      changes := |gone|;
      assert old(rows) - rows == gone;
    }

    /** The chunked deletion of the rows past retention: whatever the batch size, all of them go. */
    method PruneOld(device: nat, cutoff: int, batch: nat) returns (deleted: nat)
      requires batch >= 1
      modifies this`rows
      ensures rows == old(rows) - OldOf(old(rows), device, cutoff)
      ensures deleted == |old(rows) - rows|
    {
      deleted := 0;
      ghost var start := rows;
      assert start - rows == {};
      var more := true;
      while more
        invariant rows <= start && start - rows <= OldOf(start, device, cutoff)
        invariant deleted == |start - rows|
        invariant !more ==> OldOf(rows, device, cutoff) == {}
        decreases |OldOf(rows, device, cutoff)|, more
      {
        ghost var before := rows;
        var n := DelOld(device, cutoff, batch);
        ghost var gone := before - rows;
        assert start - rows == (start - before) + gone;
        assert OldOf(rows, device, cutoff) == OldOf(before, device, cutoff) - gone;
        SubsetCount(gone, OldOf(before, device, cutoff));
        deleted := deleted + n;
        more := n >= batch;
      }
    }

    /** The chunked deletion beyond the cap: exactly the newest cap rows of the device survive. */
    method PruneCap(device: nat, cap: nat, batch: nat) returns (deleted: nat)
      requires batch >= 1 && UniqueIds(rows)
      modifies this`rows
      ensures rows == old(rows) - (OfDevice(old(rows), device) - Top(OfDevice(old(rows), device), cap))
      ensures deleted == |old(rows) - rows|
    {
      deleted := 0;
      ghost var start := rows;
      ghost var mine := OfDevice(start, device);
      assert start - rows == {};
      var more := true;
      while more
        invariant rows <= start && start - rows <= mine - Top(mine, cap)
        invariant deleted == |start - rows|
        invariant !more ==> OfDevice(rows, device) == Top(mine, cap)
        decreases |OfDevice(rows, device)|, more
      {
        ghost var before := rows;
        ghost var left := OfDevice(before, device);
        var n := DelCap(device, batch, cap);
        CapStep(start, before, rows, device, cap, batch);
        deleted := deleted + n;
        more := n >= batch;
      }
      assert start - rows == mine - Top(mine, cap);
    }

    /** The whole sweep, device after device in id order. */
    method PruneStatusLog(cutoff: int, cap: int, batch: nat) returns (total: nat)
      requires batch >= 1 && UniqueIds(rows)
      modifies this
      ensures old(running) ==> rows == old(rows) && total == 0
      ensures !old(running) ==> rows == Swept(old(rows), cutoff, cap)
      ensures total == |old(rows) - rows| && running == old(running)
    {
      total := 0;
      if running {
        assert old(rows) - rows == {};
        return;
      }
      running := true;
      ghost var start := rows;
      assert SweptTo(start, 0, cutoff, cap) == start;
      assert start - rows == {};
      var lastDev: nat := 0;
      var next := NextDevice(rows, lastDev);
      while next.Some?
        invariant rows == SweptTo(start, lastDev, cutoff, cap) && total == |start - rows|
        invariant next.None? ==> forall r :: r in rows ==> r.device <= lastDev
        invariant next.Some? ==> IsNext(rows, lastDev, next.value)
        decreases set r | r in start && r.device > lastDev
      {
        ghost var before, prev := rows, lastDev;
        lastDev := next.value;
        var n := PruneOld(lastDev, cutoff, batch);
        ghost var young := rows;
        total := total + n;
        if cap > 0 {
          n := PruneCap(lastDev, cap, batch);
          total := total + n;
        }
        DeviceStep(start, before, young, rows, prev, lastDev, cutoff, cap);
        Closer(start, before, prev, lastDev);
        next := NextDevice(rows, lastDev);
      }
      assert rows == Swept(start, cutoff, cap);
      running := false;
    }
  }
}
