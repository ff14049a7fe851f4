/** The tamper-evident audit log: rows chained by hashes, a chain head with a prune
    checkpoint, appending, retention pruning, backfilling and verification. */
module AuditLog {
  import opened Wrappers

  // ----- Data ----------------------------------------------------------------------------

  /** SHA-256 is modelled as a free constructor, hence injective and never the genesis value.
      Other is any other text a hash column may have been set to. */
  datatype Hash = Genesis | Digest(prev: Hash, body: Body) | Other(text: string)

  /** The hashed columns of a row. */
  datatype Body = Body(userId: Option<string>, action: string, details: Details, ip: Option<string>, createdAt: int)

  /** The details column; PruneNote is the JSON object that pruneChain writes. */
  datatype Details =
    | NoDetails
    | Plain(text: string)
    | PruneNote(cutoff: int, removed: int, anchorId: int, anchorHash: Option<Hash>, total: int)

  /** A row of activity_log; scope stands for the columns the hash does not cover. */
  datatype Row = Row(id: int, body: Body, scope: string, prev: Option<Hash>, hash: Option<Hash>)

  /** Row 1 of activity_log_chain. */
  datatype Head = Head(lastHash: Hash, count: int, anchorId: Option<int>, anchorHash: Option<Hash>, pruned: int)

  /** Both tables, the rows in id order, and the next AUTO_INCREMENT value. */
  datatype Db = Db(rows: seq<Row>, head: Option<Head>, nextId: int)

  const PRUNED_ACTION := "audit:pruned"

  /** ORDER BY id on the primary key. */
  predicate Ordered(rows: seq<Row>) {
    forall i, j :: 0 <= i < j < |rows| ==> rows[i].id < rows[j].id
  }

  /** What AUTO_INCREMENT keeps. */
  predicate KeysOk(db: Db) {
    Ordered(db.rows) &&
    (forall i :: 0 <= i < |db.rows| ==> 0 < db.rows[i].id < db.nextId) && 0 < db.nextId
  }

  function ComputeEntryHash(prev: Hash, body: Body): Hash {
    Digest(prev, body)
  }

  // ----- Verification, as a function of the tables ---------------------------------------------

  datatype Failure =
    | Unchained(id: int)
    | BrokenLink(id: int)
    | ContentAltered(id: int)
    | HeadMismatch(last: Option<int>)
    | CountMismatch
    | CheckpointMismatch(row: Option<int>)

  /** The head as read, with a missing row and missing columns normalised. */
  function Checkpoint(db: Db): Head {
    if db.head.Some? then db.head.value else Head(Other(""), 0, None, None, 0)
  }

  function StartHash(h: Head): Hash {
    h.anchorHash.GetOr(Genesis)
  }

  /** The hash the row after these must link to. */
  function Expected(rows: seq<Row>, start: Option<Hash>): Option<Hash> {
    if rows == [] then start
    else
      var last := rows[|rows| - 1];
      if last.hash.Some? then last.hash else Expected(rows[..|rows| - 1], start)
  }

  function RowFailures(r: Row, expected: Option<Hash>): seq<Failure> {
    if r.hash.None? || r.prev.None? then [Unchained(r.id)]
    else
      (if r.prev != expected then [BrokenLink(r.id)] else []) +
      (if ComputeEntryHash(r.prev.value, r.body) != r.hash.value then [ContentAltered(r.id)] else [])
  }

  /** The failures of a walk over the rows. */
  function Walk(rows: seq<Row>, start: Option<Hash>): seq<Failure> {
    if rows == [] then []
    else
      var n := |rows| - 1;
      Walk(rows[..n], start) + RowFailures(rows[n], Expected(rows[..n], start))
  }

  /** A row at or below the checkpoint that a prune already removed. */
  function FirstRowFailures(rows: seq<Row>, checkpoint: Head): seq<Failure> {
    if rows != [] && checkpoint.anchorId.Some? && rows[0].id <= checkpoint.anchorId.value then
      [CheckpointMismatch(Some(rows[0].id))]
    else []
  }

  /** The newest audit:pruned entry. */
  function NewestPruned(rows: seq<Row>): Option<Row> {
    if rows == [] then None
    else if rows[|rows| - 1].body.action == PRUNED_ACTION then Some(rows[|rows| - 1])
    else NewestPruned(rows[..|rows| - 1])
  }

  predicate NoteAgrees(d: Details, checkpoint: Head) {
    d.PruneNote? && Some(d.anchorId) == checkpoint.anchorId && d.anchorHash == checkpoint.anchorHash &&
    d.total == checkpoint.pruned
  }

  function CheckCheckpoint(rows: seq<Row>, checkpoint: Head): seq<Failure> {
    var isSet := checkpoint.anchorId.Some? || checkpoint.anchorHash.Some? || checkpoint.pruned > 0;
    match NewestPruned(rows)
    case None => if isSet then [CheckpointMismatch(None)] else []
    case Some(latest) =>
      if isSet && NoteAgrees(latest.body.details, checkpoint) then [] else [CheckpointMismatch(Some(latest.id))]
  }

  function LastId(rows: seq<Row>): Option<int> {
    if rows == [] then None else Some(rows[|rows| - 1].id)
  }

  function HeadFailures(scanned: seq<Row>, db: Db): seq<Failure> {
    var c := Checkpoint(db);
    var actual := if scanned == [] then Some(StartHash(c)) else scanned[|scanned| - 1].hash;
    (if db.head.Some? && Some(c.lastHash) == actual then [] else [HeadMismatch(LastId(scanned))]) +
    (if db.head.Some? && c.count - c.pruned == |db.rows| then [] else [CountMismatch])
  }

  /** The rows with lo < id <= hi; None is no bound. */
  function InRange(rows: seq<Row>, lo: int, hi: Option<int>): seq<Row> {
    if rows == [] then []
    else
      var r := rows[|rows| - 1];
      InRange(rows[..|rows| - 1], lo, hi) + (if lo < r.id && (hi.None? || r.id <= hi.value) then [r] else [])
  }

  /** The newest row with an id below the given one. */
  function Before(rows: seq<Row>, id: int): Option<Row> {
    if rows == [] then None
    else if rows[|rows| - 1].id < id then Some(rows[|rows| - 1])
    else Before(rows[..|rows| - 1], id)
  }

  /** All failures of `verifyChain` over the whole chain. */
  function VerifyAll(db: Db): seq<Failure> {
    var c := Checkpoint(db);
    var scanned := InRange(db.rows, 0, None);
    FirstRowFailures(scanned, c) + Walk(scanned, Some(StartHash(c))) + HeadFailures(scanned, db) + CheckCheckpoint(db.rows, c)
  }

  /** All failures of `verifyChain` over a range of ids; at least one end is given. */
  function VerifyRange(db: Db, startId: Option<int>, endId: Option<int>): seq<Failure> {
    var c := Checkpoint(db);
    var before := if startId.Some? then Before(db.rows, startId.value) else None;
    var scanned := InRange(db.rows, if startId.Some? then startId.value - 1 else 0, endId);
    if before.Some? then Walk(scanned, before.value.hash)
    else FirstRowFailures(scanned, c) + Walk(scanned, Some(StartHash(c))) + CheckCheckpoint(db.rows, c)
  }

  // ----- Appending, pruning and backfilling, as functions of the tables --------------------------

  /** None when row 1 of the chain table is missing. */
  function Append(db: Db, body: Body, scope: string): Option<Db> {
    if db.head.None? then None
    else
      var h := db.head.value;
      var hash := ComputeEntryHash(h.lastHash, body);
      Some(Db(db.rows + [Row(db.nextId, body, scope, Some(h.lastHash), Some(hash))],
              Some(h.(lastHash := hash, count := h.count + 1)), db.nextId + 1))
  }

  /** The rows in front of the first one inside the window. */
  function OldPrefix(rows: seq<Row>, cutoff: int): (n: nat)
    ensures n <= |rows|
    ensures forall i :: 0 <= i < n ==> rows[i].body.createdAt < cutoff
    ensures n < |rows| ==> rows[n].body.createdAt >= cutoff
  {
    if rows == [] || rows[0].body.createdAt >= cutoff then 0 else 1 + OldPrefix(rows[1..], cutoff)
  }

  /** SELECT MIN(id) over the rows inside the window. */
  function FirstInWindow(rows: seq<Row>, cutoff: int): Option<int> {
    if rows == [] then None
    else
      var n := |rows| - 1;
      var before := FirstInWindow(rows[..n], cutoff);
      if rows[n].body.createdAt >= cutoff && (before.None? || rows[n].id < before.value) then Some(rows[n].id) else before
  }

  lemma {:induction false} FirstInWindowIs(rows: seq<Row>, cutoff: int) returns (k: nat)
    ensures var id := FirstInWindow(rows, cutoff);
      (id.Some? ==> k < |rows| && rows[k].body.createdAt >= cutoff && rows[k].id == id.value) &&
      forall i :: 0 <= i < |rows| && rows[i].body.createdAt >= cutoff ==> id.Some? && id.value <= rows[i].id
  {
    k := 0;
    if rows != [] {
      var n := |rows| - 1;
      k := FirstInWindowIs(rows[..n], cutoff);
      if FirstInWindow(rows, cutoff) != FirstInWindow(rows[..n], cutoff) {
        k := n;
      }
    }
  }

  /** SELECT MAX(id). */
  function MaxId(rows: seq<Row>): Option<int> {
    if rows == [] then None
    else
      var n := |rows| - 1;
      var before := MaxId(rows[..n]);
      if before.None? || before.value < rows[n].id then Some(rows[n].id) else before
  }

  lemma {:induction false} MaxIdIs(rows: seq<Row>)
    ensures MaxId(rows).None? <==> rows == []
    ensures forall i :: 0 <= i < |rows| ==> MaxId(rows).Some? && rows[i].id <= MaxId(rows).value
  {
    if rows != [] {
      MaxIdIs(rows[..|rows| - 1]);
    }
  }

  /** The id below which rows are deleted: that of the first row inside the window, or the one
      behind the newest row. None when there is no row. */
  function BoundaryId(rows: seq<Row>, cutoff: int): Option<int> {
    var inWindow, newest := FirstInWindow(rows, cutoff), MaxId(rows);
    if inWindow.Some? then inWindow else if newest.Some? then Some(newest.value + 1) else None
  }

  /** What DELETE ... WHERE id < boundary leaves. */
  function FromId(rows: seq<Row>, boundary: int): seq<Row> {
    if rows == [] then []
    else
      var n := |rows| - 1;
      FromId(rows[..n], boundary) + if rows[n].id < boundary then [] else [rows[n]]
  }

  lemma {:induction false} FromIdShorter(rows: seq<Row>, boundary: int)
    ensures |FromId(rows, boundary)| <= |rows|
  {
    if rows != [] {
      FromIdShorter(rows[..|rows| - 1], boundary);
    }
  }

  /** A boundary that splits the ids as place k splits the rows. */
  predicate SplitsAt(rows: seq<Row>, boundary: int, k: nat) {
    k <= |rows| && (forall i :: 0 <= i < k ==> rows[i].id < boundary) && forall i :: k <= i < |rows| ==> rows[i].id >= boundary
  }

  lemma {:induction false} FromIdIs(rows: seq<Row>, boundary: int, k: nat)
    requires SplitsAt(rows, boundary, k)
    ensures FromId(rows, boundary) == rows[k..]
    ensures Before(rows, boundary) == if k > 0 then Some(rows[k - 1]) else None
  {
    if rows != [] {
      var n := |rows| - 1;
      if k == |rows| {
        FromIdIs(rows[..n], boundary, n);
      } else {
        assert rows[n].id >= boundary;
        FromIdIs(rows[..n], boundary, k);
        assert rows[k..] == rows[..n][k..] + [rows[n]];
      }
    }
  }

  /** With ascending ids the boundary id splits the rows in front of the first one inside the
      window. */
  lemma BoundarySplits(rows: seq<Row>, cutoff: int)
    requires Ordered(rows)
    ensures BoundaryId(rows, cutoff).None? <==> rows == []
    ensures rows != [] ==> SplitsAt(rows, BoundaryId(rows, cutoff).value, OldPrefix(rows, cutoff))
  {
    hide FirstInWindow, MaxId, OldPrefix;
    var n := OldPrefix(rows, cutoff);
    var k := FirstInWindowIs(rows, cutoff);
    MaxIdIs(rows);
    if n < |rows| {
      assert FirstInWindow(rows, cutoff).Some?;
      assert n <= k;
      assert rows[n].id == rows[k].id;
    }
  }

  /** So it deletes exactly those rows, and the last one with a smaller id is the last of them. */
  lemma BoundaryIsPrefix(rows: seq<Row>, cutoff: int)
    requires Ordered(rows)
    ensures var n, boundary := OldPrefix(rows, cutoff), BoundaryId(rows, cutoff);
      (boundary.None? <==> rows == []) &&
      (boundary.Some? ==> FromId(rows, boundary.value) == rows[n..] &&
                          Before(rows, boundary.value) == if n > 0 then Some(rows[n - 1]) else None)
  {
    hide FromId, Before, BoundaryId, SplitsAt, OldPrefix, Ordered;
    BoundarySplits(rows, cutoff);
    if rows != [] {
      FromIdIs(rows, BoundaryId(rows, cutoff).value, OldPrefix(rows, cutoff));
    }
  }

  function PruneBody(user: Option<string>, now: int, cutoff: int, removed: int, anchorId: int, anchorHash: Option<Hash>, total: int): Body {
    Body(user, PRUNED_ACTION, PruneNote(cutoff, removed, anchorId, anchorHash, total), None, now)
  }

  /** The tables after the block is deleted and the checkpoint is recorded. */
  function DropBlock(db: Db, n: nat): Db
    requires 0 < n <= |db.rows| && db.head.Some?
  {
    var last, h := db.rows[n - 1], db.head.value;
    db.(rows := db.rows[n..], head := Some(h.(anchorId := Some(last.id), anchorHash := last.hash, pruned := h.pruned + n)))
  }

  /** None when row 1 of the chain table is missing; unchanged when nothing is old enough. */
  function Prune(db: Db, cutoff: int, now: int, user: Option<string>): Option<Db> {
    var n := OldPrefix(db.rows, cutoff);
    if db.head.None? then None
    else if n == 0 then Some(db)
    else
      var d := DropBlock(db, n);
      var last := db.rows[n - 1];
      Append(d, PruneBody(user, now, cutoff, n, last.id, last.hash, d.head.value.pruned), "")
  }

  /** The rows up to and including the last one that has a hash. */
  function ChainedPrefix(rows: seq<Row>): (m: nat)
    ensures m <= |rows|
    ensures m > 0 ==> rows[m - 1].hash.Some?
    ensures forall i :: m <= i < |rows| ==> rows[i].hash.None?
  {
    if rows == [] then 0
    else if rows[|rows| - 1].hash.Some? then |rows|
    else ChainedPrefix(rows[..|rows| - 1])
  }

  function ChainedCount(rows: seq<Row>): nat {
    if rows == [] then 0 else ChainedCount(rows[..|rows| - 1]) + (if rows[|rows| - 1].hash.Some? then 1 else 0)
  }

  /** The rows linked one after the other, from the given hash on. */
  function ChainUp(rows: seq<Row>, prev: Hash): (r: seq<Row>)
    ensures |r| == |rows|
  {
    if rows == [] then []
    else
      var n := |rows| - 1;
      var before := ChainUp(rows[..n], prev);
      var p := EndOf(before, prev);
      before + [rows[n].(prev := Some(p), hash := Some(ComputeEntryHash(p, rows[n].body)))]
  }

  /** The hash of the last row, if it has one. */
  function EndOf(rows: seq<Row>, start: Hash): Hash {
    if rows == [] then start else rows[|rows| - 1].hash.GetOr(start)
  }

  /** The chain row as seeded when it is missing. */
  function SeededHead(db: Db): Head {
    if db.head.Some? then db.head.value else Head(Genesis, 0, None, None, 0)
  }

  function BackfillStart(db: Db): Hash {
    EndOf(db.rows[..ChainedPrefix(db.rows)], StartHash(SeededHead(db)))
  }

  function Backfill(db: Db): Db {
    var h, m := SeededHead(db), ChainedPrefix(db.rows);
    var added := ChainUp(db.rows[m..], BackfillStart(db));
    db.(rows := db.rows[..m] + added,
        head := Some(h.(lastHash := EndOf(added, BackfillStart(db)), count := ChainedCount(db.rows) + |added| + h.pruned)))
  }

  // ----- The code ----------------------------------------------------------------------------------

  class Store {
    var rows: seq<Row>
    var head: Option<Head>
    var nextId: int

    function View(): Db
      reads this
    {
      Db(rows, head, nextId)
    }

    /** None when the source throws: no action, or no chain row. */
    method AppendInTx(body: Body, scope: string) returns (r: Option<Row>)
      modifies this
      ensures r.None? <==> body.action == "" || old(head).None?
      ensures r.None? ==> View() == old(View())
      ensures r.Some? ==> Some(View()) == Append(old(View()), body, scope) && r.value == rows[|rows| - 1]
    {
      if body.action == "" || head.None? {
        return None;
      }
      var prev := head.value.lastHash;
      var hash := ComputeEntryHash(prev, body);
      var row := Row(nextId, body, scope, Some(prev), Some(hash));
      rows := rows + [row];
      nextId := nextId + 1;
      head := Some(head.value.(lastHash := hash, count := head.value.count + 1));
      r := Some(row);
    }

    /** None when the source throws; otherwise the number of rows removed. */
    method PruneChain(cutoff: int, now: int, user: Option<string>) returns (r: Option<nat>)
      requires KeysOk(View())
      modifies this
      ensures r.None? <==> old(head).None?
      ensures r.None? ==> View() == old(View())
      ensures r.Some? ==> r.value == OldPrefix(old(rows), cutoff) && Some(View()) == Prune(old(View()), cutoff, now, user)
    {
      if head.None? {
        return None;
      }
      hide FirstInWindow, MaxId, FromId, Before, OldPrefix, Ordered;
      BoundaryIsPrefix(rows, cutoff);
      ghost var was, n := View(), OldPrefix(rows, cutoff);
      var inWindow := FirstInWindow(rows, cutoff);
      var boundaryId: int;
      if inWindow.Some? {
        boundaryId := inWindow.value;
      } else {
        var newest := MaxId(rows);
        if newest.None? {
          return Some(0);
        }
        boundaryId := newest.value + 1;
      }
      var last := Before(rows, boundaryId);
      if last.None? {
        return Some(0);
      }
      var removed := |rows| - |FromId(rows, boundaryId)|;
      rows := FromId(rows, boundaryId);
      head := Some(head.value.(anchorId := Some(last.value.id), anchorHash := last.value.hash, pruned := head.value.pruned + removed));
      assert removed == n && View() == DropBlock(was, n);
      hide DropBlock;
      var _ := AppendInTx(PruneBody(user, now, cutoff, removed, last.value.id, last.value.hash, head.value.pruned), "");
      r := Some(removed);
    }

    /** Chains the rows that have no hash, in batches, from the last chained row on. */
    method BackfillChain() returns (filled: nat)
      requires KeysOk(View())
      modifies this
      ensures View() == Backfill(old(View()))
      ensures filled == |old(rows)| - ChainedPrefix(old(rows))
    {
      hide Pending, Filling, ChainUp, ChainedPrefix, EndOf, SeededHead, ChainedCount;
      ghost var was, start := rows, BackfillStart(View());
      var h := SeededHead(View());
      head := Some(h);
      var m := ChainedPrefix(rows);
      var prev := EndOf(rows[..m], StartHash(h));
      var lastId := if m > 0 then rows[m - 1].id else 0;
      var chainedCount := ChainedCount(rows);
      filled := 0;
      FillStart(was, m, start);
      while true
        invariant 0 <= filled <= |was| - m && nextId == old(nextId) && head == Some(h) && |rows| == |was|
        invariant Filling(was, m, start, filled, rows, prev, lastId)
        decreases |was| - filled
      {
        var batch := Pending(rows, lastId, 500);
        NextBatch(was, m, start, filled, rows, prev, lastId);
        if batch == [] {
          break;
        }
        var i := 0;
        ghost var from := m + filled;
        while i < |batch|
          invariant 0 <= i <= |batch| && m + filled == from + i
          invariant nextId == old(nextId) && head == Some(h) && |rows| == |was|
          invariant Filling(was, m, start, filled, rows, prev, lastId)
        {
          var k := batch[i];
          FillStep(was, m, start, filled, rows, prev, lastId);
          var hash := ComputeEntryHash(prev, rows[k].body);
          rows := rows[k := rows[k].(prev := Some(prev), hash := Some(hash))];
          prev := hash;
          lastId := rows[k].id;
          filled := filled + 1;
          i := i + 1;
        }
      }
      FillEnd(was, m, start, filled, rows, prev, lastId);
      head := Some(h.(lastHash := prev, count := chainedCount + filled + h.pruned));
    }

    /** The batches of the walk over the rows with ids above lo, up to endId. */
    method WalkRows(start: Option<Hash>, anchorId: Option<int>, lo: int, endId: Option<int>)
      returns (failures: seq<Failure>, checked: nat, lastSeen: Option<Row>, ghost cursor: int, ghost expected: Option<Hash>)
      requires Ordered(rows)
      ensures checked == |InRange(rows, lo, endId)|
      ensures Walking(InRange(rows, lo, endId), start, anchorId, lo, checked, cursor, lastSeen, expected, failures)
    {
      hide InRange, Walk, Expected, RowFailures, Ordered, Walking;
      var expectedPrev, at := start, lo;
      ghost var all := InRange(rows, lo, endId);
      failures, checked, lastSeen := [], 0, None;
      WalkingStart(all, start, anchorId, lo);
      while true
        invariant checked <= |all|
        invariant Walking(all, start, anchorId, lo, checked, at, lastSeen, expectedPrev, failures)
        decreases |all| - checked
      {
        CursorIs(all, start, anchorId, lo, checked, at, lastSeen, expectedPrev, failures);
        RangeAfter(rows, lo, endId, checked);
        var rest := InRange(rows, at, endId);
        var batch := if |rest| <= 1000 then rest else rest[..1000];
        if batch == [] {
          break;
        }
        var i := 0;
        ghost var from := checked;
        while i < |batch|
          invariant 0 <= i <= |batch| && checked == from + i <= |all|
          invariant Walking(all, start, anchorId, lo, checked, at, lastSeen, expectedPrev, failures)
        {
          var r := batch[i];
          assert r == all[checked];
          assert failures + [] == failures;
          WalkingStep(all, start, anchorId, lo, checked, at, lastSeen, expectedPrev, failures);
          if lastSeen.None? && anchorId.Some? && r.id <= anchorId.value {
            failures := failures + [CheckpointMismatch(Some(r.id))];
          }
          failures := failures + RowFailures(r, expectedPrev);
          expectedPrev := if r.hash.Some? then r.hash else expectedPrev;
          lastSeen := Some(r);
          at := r.id;
          checked := checked + 1;
          i := i + 1;
        }
      }
      cursor, expected := at, expectedPrev;
    }

    /** Walks the chain, or the part of it with ids in a range. */
    method VerifyChain(startId: Option<int>, endId: Option<int>) returns (failures: seq<Failure>, checked: nat)
      requires Ordered(rows)
      ensures startId.None? && endId.None? ==> failures == VerifyAll(View())
      ensures startId.Some? || endId.Some? ==> failures == VerifyRange(View(), startId, endId)
      ensures checked == |InRange(rows, if startId.Some? then startId.value - 1 else 0, endId)|
    {
      hide InRange, Walk, Expected, RowFailures, Ordered, Walking, FirstRowFailures, CheckCheckpoint, Before;
      var checkpoint := Checkpoint(View());
      var before := if startId.Some? then Before(rows, startId.value) else None;
      var start := if before.Some? then before.value.hash else Some(StartHash(checkpoint));
      var lo := if startId.Some? then startId.value - 1 else 0;
      var anchorId := if before.None? then checkpoint.anchorId else None;
      var lastSeen: Option<Row>;
      ghost var cursor, expected;
      failures, checked, lastSeen, cursor, expected := WalkRows(start, anchorId, lo, endId);
      ghost var all := InRange(rows, lo, endId);
      WalkingEnd(all, start, anchorId, lo, checked, cursor, lastSeen, expected, failures, checkpoint);
      if startId.None? && endId.None? {
        var actual := if lastSeen.Some? then lastSeen.value.hash else Some(StartHash(checkpoint));
        if !(head.Some? && Some(checkpoint.lastHash) == actual) {
          failures := failures + [HeadMismatch(if lastSeen.Some? then Some(lastSeen.value.id) else None)];
        }
        if !(head.Some? && checkpoint.count - checkpoint.pruned == |rows|) {
          failures := failures + [CountMismatch];
        }
      }
      if before.None? {
        failures := failures + CheckCheckpoint(rows, checkpoint);
      }
    }
  }

  /** The state of the walk after k rows; the anchor is None when rows precede the range. */
  ghost predicate Walking(all: seq<Row>, start: Option<Hash>, anchorId: Option<int>, lo: int, k: nat,
                          cursor: int, lastSeen: Option<Row>, expectedPrev: Option<Hash>, failures: seq<Failure>)
  {
    k <= |all| &&
    cursor == (if k > 0 then all[k - 1].id else lo) &&
    lastSeen == (if k > 0 then Some(all[k - 1]) else None) &&
    expectedPrev == Expected(all[..k], start) &&
    failures == (if k > 0 then StartFailures(all, anchorId) else []) + Walk(all[..k], start)
  }

  function StartFailures(rows: seq<Row>, anchorId: Option<int>): seq<Failure> {
    if rows != [] && anchorId.Some? && rows[0].id <= anchorId.value then [CheckpointMismatch(Some(rows[0].id))] else []
  }

  lemma WalkingStart(all: seq<Row>, start: Option<Hash>, anchorId: Option<int>, lo: int)
    ensures Walking(all, start, anchorId, lo, 0, lo, None, start, [])
  {
  }

  lemma CursorIs(all: seq<Row>, start: Option<Hash>, anchorId: Option<int>, lo: int, k: nat,
                 cursor: int, lastSeen: Option<Row>, expectedPrev: Option<Hash>, failures: seq<Failure>)
    requires Walking(all, start, anchorId, lo, k, cursor, lastSeen, expectedPrev, failures)
    ensures k <= |all| && cursor == if k > 0 then all[k - 1].id else lo
  {
  }

  lemma WalkingStep(all: seq<Row>, start: Option<Hash>, anchorId: Option<int>, lo: int, k: nat,
                    cursor: int, lastSeen: Option<Row>, expectedPrev: Option<Hash>, failures: seq<Failure>)
    requires Walking(all, start, anchorId, lo, k, cursor, lastSeen, expectedPrev, failures) && k < |all|
    ensures var r := all[k];
      var first := if lastSeen.None? && anchorId.Some? && r.id <= anchorId.value then [CheckpointMismatch(Some(r.id))] else [];
      Walking(all, start, anchorId, lo, k + 1, r.id, Some(r), if r.hash.Some? then r.hash else expectedPrev,
              failures + first + RowFailures(r, expectedPrev))
  {
    WalkNone(start);
    WalkNext(all, start, k);
    hide Walk, Expected, RowFailures;
    assert all[..0] == [];
  }

  lemma WalkingEnd(all: seq<Row>, start: Option<Hash>, anchorId: Option<int>, lo: int, k: nat,
                   cursor: int, lastSeen: Option<Row>, expectedPrev: Option<Hash>, failures: seq<Failure>, checkpoint: Head)
    requires Walking(all, start, anchorId, lo, k, cursor, lastSeen, expectedPrev, failures) && k == |all|
    ensures lastSeen == if all == [] then None else Some(all[|all| - 1])
    ensures anchorId == checkpoint.anchorId ==> failures == FirstRowFailures(all, checkpoint) + Walk(all, start)
    ensures anchorId.None? ==> failures == Walk(all, start)
  {
    WalkNone(start);
    hide Walk, Expected;
    assert all[..k] == all;
  }

  lemma WalkNone(start: Option<Hash>)
    ensures Walk([], start) == [] && Expected([], start) == start
  {
  }

  lemma WalkNext(all: seq<Row>, start: Option<Hash>, k: nat)
    requires k < |all|
    ensures Walk(all[..k + 1], start) == Walk(all[..k], start) + RowFailures(all[k], Expected(all[..k], start))
    ensures Expected(all[..k + 1], start) == if all[k].hash.Some? then all[k].hash else Expected(all[..k], start)
  {
    assert all[..k + 1][..k] == all[..k];
  }

  /** Going on behind the k-th row of a range gives the rest of the range. */
  lemma {:induction false} RangeAfter(rows: seq<Row>, lo: int, hi: Option<int>, k: nat)
    requires Ordered(rows) && k <= |InRange(rows, lo, hi)|
    ensures var all := InRange(rows, lo, hi); InRange(rows, if k > 0 then all[k - 1].id else lo, hi) == all[k..]
  {
    if rows != [] {
      var n := |rows| - 1;
      var r := rows[n];
      var all, init := InRange(rows, lo, hi), InRange(rows[..n], lo, hi);
      InRangeStep(rows, lo, hi);
      InRangeStep(rows, if k > 0 then all[k - 1].id else lo, hi);
      hide InRange;
      if k > |init| {
        NothingLater(rows[..n], r.id, hi);
      } else {
        RangeAfter(rows[..n], lo, hi, k);
        if k > 0 {
          InRangeFrom(rows[..n], lo, hi);
          assert all[k - 1] == init[k - 1] && init[k - 1] in rows[..n];
          assert init[k - 1].id < r.id && init[k - 1].id > lo;
        }
      }
    }
  }

  lemma InRangeStep(rows: seq<Row>, lo: int, hi: Option<int>)
    requires rows != []
    ensures var n := |rows| - 1;
      InRange(rows, lo, hi) == InRange(rows[..n], lo, hi) + if lo < rows[n].id && (hi.None? || rows[n].id <= hi.value) then [rows[n]] else []
  {
  }

  lemma {:induction false} NothingLater(rows: seq<Row>, lo: int, hi: Option<int>)
    requires forall i :: 0 <= i < |rows| ==> rows[i].id <= lo
    ensures InRange(rows, lo, hi) == []
  {
    if rows != [] {
      NothingLater(rows[..|rows| - 1], lo, hi);
    }
  }

  lemma {:induction false} InRangeFrom(rows: seq<Row>, lo: int, hi: Option<int>)
    ensures forall i :: 0 <= i < |InRange(rows, lo, hi)| ==> InRange(rows, lo, hi)[i] in rows && InRange(rows, lo, hi)[i].id > lo
  {
    if rows != [] {
      InRangeFrom(rows[..|rows| - 1], lo, hi);
      assert rows == rows[..|rows| - 1] + [rows[|rows| - 1]];
    }
  }

  /** The rows after the first m have been chained as far as `filled`. */
  ghost predicate Filling(was: seq<Row>, m: nat, start: Hash, filled: nat, rows: seq<Row>, prev: Hash, lastId: int) {
    m + filled <= |was| == |rows| &&
    rows == was[..m] + ChainUp(was[m..m + filled], start) + was[m + filled..] &&
    prev == EndOf(ChainUp(was[m..m + filled], start), start) &&
    lastId == if m + filled > 0 then was[m + filled - 1].id else 0
  }

  lemma FillStart(was: seq<Row>, m: nat, start: Hash)
    requires m <= |was|
    ensures Filling(was, m, start, 0, was, start, if m > 0 then was[m - 1].id else 0)
  {
    assert was[m..m] == [];
    assert was == was[..m] + [] + was[m..];
  }

  function Linked(r: Row, prev: Hash): Row {
    r.(prev := Some(prev), hash := Some(ComputeEntryHash(prev, r.body)))
  }

  lemma ChainUpLast(rows: seq<Row>, r: Row, start: Hash)
    ensures var done := ChainUp(rows, start); var p := EndOf(done, start);
      ChainUp(rows + [r], start) == done + [Linked(r, p)] && EndOf(done + [Linked(r, p)], start) == ComputeEntryHash(p, r.body)
  {
    assert (rows + [r])[..|rows|] == rows;
  }

  lemma FillStep(was: seq<Row>, m: nat, start: Hash, filled: nat, rows: seq<Row>, prev: Hash, lastId: int)
    requires Filling(was, m, start, filled, rows, prev, lastId) && m + filled < |was|
    ensures var k := m + filled; var hash := ComputeEntryHash(prev, rows[k].body);
      Filling(was, m, start, filled + 1, rows[k := rows[k].(prev := Some(prev), hash := Some(hash))], hash, rows[k].id)
  {
    hide ChainUp, EndOf;
    var k := m + filled;
    var done := was[m..k];
    assert was[m..k + 1] == done + [was[k]];
    ChainUpLast(done, was[k], start);
    assert rows[k] == was[k];
    var c := ChainUp(done, start);
    assert rows == (was[..m] + c) + was[k..];
    assert rows[k := Linked(was[k], prev)] == was[..m] + (c + [Linked(was[k], prev)]) + was[k + 1..];
  }

  lemma FillEnd(was: seq<Row>, m: nat, start: Hash, filled: nat, rows: seq<Row>, prev: Hash, lastId: int)
    requires Filling(was, m, start, filled, rows, prev, lastId) && m + filled == |was|
    ensures rows == was[..m] + ChainUp(was[m..], start) && prev == EndOf(ChainUp(was[m..], start), start)
  {
    hide ChainUp, EndOf;
    assert was[m..m + filled] == was[m..];
  }

  /** All columns except the two hashes agree. */
  predicate SameEntry(a: Row, b: Row) {
    a.id == b.id && a.body == b.body && a.scope == b.scope
  }

  lemma {:induction false} ChainUpKeeps(rows: seq<Row>, start: Hash)
    ensures forall i :: 0 <= i < |rows| ==>
      SameEntry(ChainUp(rows, start)[i], rows[i]) && ChainUp(rows, start)[i].hash.Some?
  {
    if rows != [] {
      ChainUpKeeps(rows[..|rows| - 1], start);
    }
  }

  lemma NoHashFrom(rows: seq<Row>, m: nat)
    requires m == ChainedPrefix(rows)
    ensures m <= |rows| && forall i :: m <= i < |rows| ==> rows[i].hash.None?
  {
  }

  lemma ThreeParts(rows: seq<Row>, a: seq<Row>, b: seq<Row>, c: seq<Row>, i: nat)
    requires rows == a + b + c && i < |rows|
    ensures rows[i] == if i < |a| then a[i] else if i < |a| + |b| then b[i - |a|] else c[i - |a| - |b|]
  {
  }

  lemma FillingShape(was: seq<Row>, m: nat, start: Hash, filled: nat, rows: seq<Row>, prev: Hash, lastId: int)
    requires Filling(was, m, start, filled, rows, prev, lastId) && m == ChainedPrefix(was)
    ensures m + filled <= |rows| == |was| && lastId == if m + filled > 0 then was[m + filled - 1].id else 0
    ensures forall i :: 0 <= i < |rows| ==> rows[i].id == was[i].id
    ensures forall i :: m + filled <= i < |rows| ==> rows[i].hash.None?
  {
    hide *;
    var f := m + filled;
    FillingParts(was, m, start, filled, rows, prev, lastId);
    DoneIds(was, m, f, start);
    NoHashFrom(was, m);
    FilledAt(was, m, f, ChainUp(was[m..f], start), rows);
  }

  lemma DoneIds(was: seq<Row>, m: nat, f: nat, start: Hash)
    requires m <= f <= |was|
    ensures forall k :: 0 <= k < f - m ==> ChainUp(was[m..f], start)[k].id == was[m + k].id
  {
    hide ChainUp;
    var done := was[m..f];
    ChainUpKeeps(done, start);
    forall k | 0 <= k < f - m
      ensures ChainUp(done, start)[k].id == was[m + k].id
    {
      assert SameEntry(ChainUp(done, start)[k], done[k]);
    }
  }

  lemma FillingParts(was: seq<Row>, m: nat, start: Hash, filled: nat, rows: seq<Row>, prev: Hash, lastId: int)
    requires Filling(was, m, start, filled, rows, prev, lastId)
    ensures m + filled <= |was| == |rows| && lastId == if m + filled > 0 then was[m + filled - 1].id else 0
    ensures rows == was[..m] + ChainUp(was[m..m + filled], start) + was[m + filled..]
  {
    hide ChainUp, EndOf;
  }

  lemma FilledAt(was: seq<Row>, m: nat, f: nat, c: seq<Row>, rows: seq<Row>)
    requires m <= f <= |was| && |c| == f - m && rows == was[..m] + c + was[f..]
    requires forall k :: 0 <= k < |c| ==> c[k].id == was[m + k].id
    requires forall i :: m <= i < |was| ==> was[i].hash.None?
    ensures |rows| == |was|
    ensures forall i :: 0 <= i < |rows| ==> rows[i].id == was[i].id && (f <= i ==> rows[i].hash.None?)
  {
    forall i | 0 <= i < |rows|
      ensures rows[i].id == was[i].id && (f <= i ==> rows[i].hash.None?)
    {
      ThreeParts(rows, was[..m], c, was[f..], i);
      if m <= i < f {
        var k := i - m;
        assert c[k].id == was[m + k].id;
      }
    }
  }

  /** The next batch is the rows from place m + filled on. */
  lemma NextBatch(was: seq<Row>, m: nat, start: Hash, filled: nat, rows: seq<Row>, prev: Hash, lastId: int)
    requires Filling(was, m, start, filled, rows, prev, lastId) && m == ChainedPrefix(was)
    requires forall i, j :: 0 <= i < j < |was| ==> was[i].id < was[j].id
    requires forall i :: 0 <= i < |was| ==> 0 < was[i].id
    ensures var p := Pending(rows, lastId, 500); var left := |was| - (m + filled);
      |p| == (if left < 500 then left else 500) && forall i :: 0 <= i < |p| ==> p[i] == m + filled + i
  {
    hide Filling, ChainedPrefix, Pending, ChainUp, EndOf;
    FillingShape(was, m, start, filled, rows, prev, lastId);
    PendingIs(was, rows, m + filled, lastId, 500);
  }

  /** Places of the first rows, at most limit, with an id above lastId and no hash. */
  function Pending(rows: seq<Row>, lastId: int, limit: nat): (p: seq<nat>)
    ensures |p| <= limit
    ensures forall i :: 0 <= i < |p| ==> p[i] < |rows|
  {
    PendingFrom(rows, 0, lastId, limit)
  }

  function PendingFrom(rows: seq<Row>, k: nat, lastId: int, limit: nat): (p: seq<nat>)
    ensures |p| <= limit
    ensures forall i :: 0 <= i < |p| ==> k <= p[i] < |rows|
    decreases |rows| - k
  {
    if k >= |rows| || limit == 0 then []
    else if rows[k].id > lastId && rows[k].hash.None? then [k] + PendingFrom(rows, k + 1, lastId, limit - 1)
    else PendingFrom(rows, k + 1, lastId, limit)
  }

  /** With the rows before place f done and no hash from there on, the next batch is the rows
      from f on. */
  lemma PendingIs(was: seq<Row>, rows: seq<Row>, f: nat, lastId: int, limit: nat)
    requires f <= |rows| == |was| && limit > 0
    requires forall i, j :: 0 <= i < j < |was| ==> was[i].id < was[j].id
    requires forall i :: 0 <= i < |was| ==> 0 < was[i].id
    requires forall i :: 0 <= i < |rows| ==> rows[i].id == was[i].id
    requires forall i :: f <= i < |rows| ==> rows[i].hash.None?
    requires lastId == if f > 0 then was[f - 1].id else 0
    ensures var p := Pending(rows, lastId, limit);
      |p| == (if |rows| - f < limit then |rows| - f else limit) && forall i :: 0 <= i < |p| ==> p[i] == f + i
  {
    PendingSkips(rows, 0, f, lastId, limit);
    PendingTakes(rows, f, lastId, limit);
  }

  lemma {:induction false} PendingSkips(rows: seq<Row>, k: nat, f: nat, lastId: int, limit: nat)
    requires k <= f <= |rows|
    requires forall i :: k <= i < f ==> rows[i].id <= lastId
    ensures PendingFrom(rows, k, lastId, limit) == PendingFrom(rows, f, lastId, limit)
    decreases f - k
  {
    if k < f {
      PendingSkips(rows, k + 1, f, lastId, limit);
    }
  }

  lemma {:induction false} PendingTakes(rows: seq<Row>, f: nat, lastId: int, limit: nat)
    requires f <= |rows|
    requires forall i :: f <= i < |rows| ==> rows[i].id > lastId && rows[i].hash.None?
    ensures var p := PendingFrom(rows, f, lastId, limit);
      |p| == (if |rows| - f < limit then |rows| - f else limit) && forall i :: 0 <= i < |p| ==> p[i] == f + i
    decreases |rows| - f
  {
    if f < |rows| && limit > 0 {
      PendingTakes(rows, f + 1, lastId, limit - 1);
    }
  }
}
