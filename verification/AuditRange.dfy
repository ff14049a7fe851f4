/** What a check of the audit log reports, row by row and in plain terms, for any tables whatever:
    exactly when a full or a ranged check passes, and what it says about each row. */
module AuditRange {
  import opened Wrappers
  import opened AuditLog
  import opened AuditTamper

  // ----- What must hold of a row -------------------------------------------------------------------

  /** Where the chain starts: at the prune checkpoint, if there is one. */
  function ChainStart(t: Db): Hash {
    if t.head.Some? && t.head.value.anchorHash.Some? then t.head.value.anchorHash.value else Genesis
  }

  /** The id is in the range; without a start all positive ids are. */
  predicate Covers(startId: Option<int>, endId: Option<int>, id: int) {
    (if startId.Some? then startId.value <= id else 0 < id) && (endId.None? || id <= endId.value)
  }

  /** What row k must link to: the hash of the row in front of it, which may lie before the range. */
  function LinkTarget(t: Db, startId: Option<int>, k: nat): Option<Hash>
    requires k < |t.rows|
  {
    if k > 0 && (startId.Some? || 0 < t.rows[k - 1].id) then t.rows[k - 1].hash else Some(ChainStart(t))
  }

  predicate Chained(r: Row) {
    r.prev.Some? && r.hash.Some?
  }

  predicate ContentOk(r: Row)
    requires Chained(r)
  {
    r.hash.value == Digest(r.prev.value, r.body)
  }

  predicate RowOk(t: Db, startId: Option<int>, k: nat)
    requires k < |t.rows|
  {
    Chained(t.rows[k]) && ContentOk(t.rows[k]) && t.rows[k].prev == LinkTarget(t, startId, k)
  }

  ghost predicate RowsOk(t: Db, startId: Option<int>, endId: Option<int>) {
    forall k :: 0 <= k < |t.rows| && Covers(startId, endId, t.rows[k].id) ==> RowOk(t, startId, k)
  }

  /** No row of the range has an id that a prune has already removed. */
  ghost predicate BehindAnchor(t: Db, startId: Option<int>, endId: Option<int>) {
    t.head.Some? && t.head.value.anchorId.Some? ==>
      forall k :: 0 <= k < |t.rows| && Covers(startId, endId, t.rows[k].id) ==> t.head.value.anchorId.value < t.rows[k].id
  }

  predicate IsSet(c: Head) {
    c.anchorId.Some? || c.anchorHash.Some? || c.pruned > 0
  }

  /** Row k tells of the last prune. */
  predicate IsLastNote(rows: seq<Row>, k: nat) {
    k < |rows| && rows[k].body.action == "audit:pruned" && forall i :: k < i < |rows| ==> rows[i].body.action != "audit:pruned"
  }

  predicate Tells(d: Details, c: Head) {
    d.PruneNote? && c.anchorId == Some(d.anchorId) && c.anchorHash == d.anchorHash && c.pruned == d.total
  }

  /** The checkpoint tells of no prune and neither does any row, or the last note tells the same. */
  ghost predicate CheckpointTold(rows: seq<Row>, head: Option<Head>) {
    if head.Some? && IsSet(head.value) then exists k: nat :: IsLastNote(rows, k) && Tells(rows[k].body.details, head.value)
    else forall i :: 0 <= i < |rows| ==> rows[i].body.action != "audit:pruned"
  }

  // ----- The parts of a check ------------------------------------------------------------------------

  lemma {:induction false} NewestIs(rows: seq<Row>) returns (k: nat)
    ensures NewestPruned(rows).None? ==> forall i :: 0 <= i < |rows| ==> rows[i].body.action != "audit:pruned"
    ensures NewestPruned(rows).Some? ==> IsLastNote(rows, k) && NewestPruned(rows).value == rows[k]
  {
    k := 0;
    if rows != [] {
      var n := |rows| - 1;
      if rows[n].body.action == "audit:pruned" {
        k := n;
      } else {
        k := NewestIs(rows[..n]);
      }
    }
  }

  lemma LastNoteUnique(rows: seq<Row>, i: nat, k: nat)
    requires IsLastNote(rows, i) && IsLastNote(rows, k)
    ensures i == k
  {
  }

  /** The comparison with the newest note; when it fails it names that row. */
  lemma CheckpointToldIs(t: Db)
    ensures CheckCheckpoint(t.rows, Checkpoint(t)) == [] <==> CheckpointTold(t.rows, t.head)
    ensures forall k: nat :: IsLastNote(t.rows, k) && !CheckpointTold(t.rows, t.head) ==>
              CheckCheckpoint(t.rows, Checkpoint(t)) == [CheckpointMismatch(Some(t.rows[k].id))]
  {
    var rows := t.rows;
    var n := NewestIs(rows);
    hide NewestPruned;
    forall k: nat | IsLastNote(rows, k) && IsLastNote(rows, n)
      ensures k == n
    {
      LastNoteUnique(rows, k, n);
    }
  }

  /** Each row is chained, whole, and behind the hash of the one before it. */
  predicate FitsAt(rows: seq<Row>, start: Option<Hash>, k: nat)
    requires k < |rows|
  {
    Chained(rows[k]) && ContentOk(rows[k]) && rows[k].prev == if k == 0 then start else rows[k - 1].hash
  }

  ghost predicate Fits(rows: seq<Row>, start: Option<Hash>) {
    forall k :: 0 <= k < |rows| ==> FitsAt(rows, start, k)
  }

  lemma FitsNext(rows: seq<Row>, start: Option<Hash>)
    requires rows != []
    ensures var n := |rows| - 1; Fits(rows, start) <==> Fits(rows[..n], start) && FitsAt(rows, start, n)
  {
    var n := |rows| - 1;
    forall k | 0 <= k < n
      ensures FitsAt(rows[..n], start, k) <==> FitsAt(rows, start, k)
    {
    }
    hide FitsAt;
  }

  /** A row that fits has a hash, which is what the next one must link to. */
  lemma FitsExpected(rows: seq<Row>, start: Option<Hash>)
    requires Fits(rows, start)
    ensures Expected(rows, start) == if rows == [] then start else rows[|rows| - 1].hash
  {
    assert rows != [] ==> FitsAt(rows, start, |rows| - 1);
    ExpectedIsLast(rows, start);
    hide Expected;
  }

  lemma {:induction false} WalkFits(rows: seq<Row>, start: Option<Hash>)
    ensures Walk(rows, start) == [] <==> Fits(rows, start)
  {
    if rows == [] {
      WalkNone(start);
    } else {
      hide *;
      var n := |rows| - 1;
      WalkFits(rows[..n], start);
      WalkNext(rows, start, n);
      assert rows[..n + 1] == rows;
      FitsNext(rows, start);
      if Fits(rows[..n], start) {
        FitsExpected(rows[..n], start);
        FitsRow(rows, start, n, Expected(rows[..n], start));
      }
    }
  }

  lemma FitsRow(rows: seq<Row>, start: Option<Hash>, k: nat, expected: Option<Hash>)
    requires k < |rows| && expected == if k == 0 then start else rows[k - 1].hash
    ensures RowFailures(rows[k], expected) == [] <==> FitsAt(rows, start, k)
  {
  }

  // ----- Exactly when a check passes -----------------------------------------------------------------

  /** Where the range lies among the rows. */
  lemma RangeAt(rows: seq<Row>, startId: Option<int>, endId: Option<int>) returns (a: nat, b: nat)
    requires Ordered(rows)
    ensures a <= b <= |rows| && InRange(rows, if startId.Some? then startId.value - 1 else 0, endId) == rows[a..b]
    ensures forall k :: 0 <= k < |rows| ==> (Covers(startId, endId, rows[k].id) <==> a <= k < b)
    ensures a > 0 && startId.None? ==> rows[a - 1].id <= 0
    ensures startId.Some? ==> Before(rows, startId.value) == if a > 0 then Some(rows[a - 1]) else None
  {
    hide UpTo, UpToEnd, InRange, Before, Ordered;
    var lo := if startId.Some? then startId.value - 1 else 0;
    a, b := UpTo(rows, lo), UpToEnd(rows, endId);
    RangeIsSlice(rows, lo, endId);
    UpToBound(rows, lo);
    UpToEndBound(rows, endId);
    if startId.Some? {
      BeforeIs(rows, startId.value);
    }
    if b < a {
      assert rows[a..a] == [];
      b := a;
    }
  }

  lemma UpToEndBound(rows: seq<Row>, hi: Option<int>)
    requires Ordered(rows)
    ensures var b := UpToEnd(rows, hi);
      (forall i :: 0 <= i < b ==> hi.None? || rows[i].id <= hi.value) &&
      (forall i :: b <= i < |rows| ==> hi.Some? && rows[i].id > hi.value)
  {
    if hi.Some? {
      UpToBound(rows, hi.value);
    }
    hide UpTo;
  }

  /** The hash a walk over a range starts from. */
  function RangeStart(t: Db, startId: Option<int>): Option<Hash> {
    var before := if startId.Some? then Before(t.rows, startId.value) else None;
    if before.Some? then before.value.hash else Some(StartHash(Checkpoint(t)))
  }

  lemma RangeFits(t: Db, startId: Option<int>, endId: Option<int>, a: nat, b: nat)
    requires a <= b <= |t.rows|
    requires forall k :: 0 <= k < |t.rows| ==> (Covers(startId, endId, t.rows[k].id) <==> a <= k < b)
    requires a > 0 && startId.None? ==> t.rows[a - 1].id <= 0
    requires startId.Some? ==> Before(t.rows, startId.value) == if a > 0 then Some(t.rows[a - 1]) else None
    ensures Fits(t.rows[a..b], RangeStart(t, startId)) <==> RowsOk(t, startId, endId)
  {
    var scanned, start := t.rows[a..b], RangeStart(t, startId);
    forall k | a <= k < b
      ensures FitsAt(scanned, start, k - a) <==> RowOk(t, startId, k)
    {
      TargetInRange(t, startId, endId, a, k, start);
    }
    hide FitsAt, RowOk, RangeStart, Before, Covers;
    if Fits(scanned, start) {
      forall k | 0 <= k < |t.rows| && Covers(startId, endId, t.rows[k].id)
        ensures RowOk(t, startId, k)
      {
        assert FitsAt(scanned, start, k - a);
      }
    } else {
      var m :| 0 <= m < |scanned| && !FitsAt(scanned, start, m);
      assert !RowOk(t, startId, m + a);
    }
  }

  lemma TargetInRange(t: Db, startId: Option<int>, endId: Option<int>, a: nat, k: nat, start: Option<Hash>)
    requires a <= k < |t.rows| && start == RangeStart(t, startId)
    requires a > 0 && startId.None? ==> t.rows[a - 1].id <= 0
    requires startId.Some? ==> Before(t.rows, startId.value) == if a > 0 then Some(t.rows[a - 1]) else None
    requires forall i :: a <= i <= k ==> Covers(startId, endId, t.rows[i].id)
    ensures LinkTarget(t, startId, k) == if k == a then start else t.rows[k - 1].hash
  {
    hide Before;
    if k > a {
      assert Covers(startId, endId, t.rows[k - 1].id);
    }
  }

  lemma FirstBehind(t: Db, startId: Option<int>, endId: Option<int>, a: nat, b: nat)
    requires a <= b <= |t.rows| && Ordered(t.rows)
    requires forall k :: 0 <= k < |t.rows| ==> (Covers(startId, endId, t.rows[k].id) <==> a <= k < b)
    ensures FirstRowFailures(t.rows[a..b], Checkpoint(t)) == [] <==> BehindAnchor(t, startId, endId)
    ensures !BehindAnchor(t, startId, endId) ==> a < b && FirstRowFailures(t.rows[a..b], Checkpoint(t)) == [CheckpointMismatch(Some(t.rows[a].id))]
  {
    hide Covers;
    if a < b {
      assert t.rows[a..b][0] == t.rows[a];
      assert Covers(startId, endId, t.rows[a].id);
    }
  }

  /** Some row lies in front of the range. */
  ghost predicate RowBefore(t: Db, startId: Option<int>) {
    startId.Some? && exists k :: 0 <= k < |t.rows| && t.rows[k].id < startId.value
  }

  /** A ranged check passes, for any tables, exactly when every row of the range is chained, whole and
      behind the row in front of it; and, if the range begins at the first row, the rows lie behind
      the checkpoint and the newest note tells of it. */
  lemma RangePasses(t: Db, startId: Option<int>, endId: Option<int>)
    requires Ordered(t.rows)
    ensures VerifyRange(t, startId, endId) == [] <==>
            RowsOk(t, startId, endId) &&
            (RowBefore(t, startId) || (BehindAnchor(t, startId, endId) && CheckpointTold(t.rows, t.head)))
  {
    hide Walk, InRange, Before, Fits, RowsOk, BehindAnchor, CheckpointTold, FirstRowFailures, CheckCheckpoint, Covers, Checkpoint;
    var a, b := RangeAt(t.rows, startId, endId);
    RangeFits(t, startId, endId, a, b);
    WalkFits(t.rows[a..b], RangeStart(t, startId));
    FirstBehind(t, startId, endId, a, b);
    CheckpointToldIs(t);
    BeforeExists(t, startId);
  }

  lemma BeforeExists(t: Db, startId: Option<int>)
    ensures RowBefore(t, startId) <==> startId.Some? && Before(t.rows, startId.value).Some?
  {
    if startId.Some? {
      SomeBefore(t.rows, startId.value);
    }
  }

  lemma {:induction false} SomeBefore(rows: seq<Row>, id: int)
    ensures Before(rows, id).Some? <==> exists k :: 0 <= k < |rows| && rows[k].id < id
  {
    if rows != [] {
      SomeBefore(rows[..|rows| - 1], id);
    }
  }

  /** The newest hash, or the start of the chain. */
  function LastHash(t: Db): Option<Hash> {
    if t.rows != [] && 0 < t.rows[|t.rows| - 1].id then t.rows[|t.rows| - 1].hash else Some(ChainStart(t))
  }

  /** A full check passes, for any tables, exactly when every row is chained, whole and behind the one
      in front of it, all behind the checkpoint, of which the newest note tells, and the chain row has
      the newest hash and counts the rows that are there. */
  lemma FullPasses(t: Db)
    requires Ordered(t.rows)
    ensures VerifyAll(t) == [] <==>
            RowsOk(t, None, None) && BehindAnchor(t, None, None) && CheckpointTold(t.rows, t.head) &&
            t.head.Some? && LastHash(t) == Some(t.head.value.lastHash) && t.head.value.count - t.head.value.pruned == |t.rows|
  {
    hide Walk, InRange, Before, Fits, RowsOk, BehindAnchor, CheckpointTold, FirstRowFailures, CheckCheckpoint, HeadFailures;
    var c := Checkpoint(t);
    var a, b := RangeAt(t.rows, None, None);
    var scanned := t.rows[a..b];
    RangeFits(t, None, None, a, b);
    WalkFits(scanned, Some(StartHash(c)));
    FirstBehind(t, None, None, a, b);
    CheckpointToldIs(t);
    HeadOk(t, a, b);
    FourParts(FirstRowFailures(scanned, c), Walk(scanned, Some(StartHash(c))), HeadFailures(scanned, t), CheckCheckpoint(t.rows, c));
  }

  lemma FourParts(a: seq<Failure>, b: seq<Failure>, c: seq<Failure>, d: seq<Failure>)
    ensures a + b + c + d == [] <==> a == [] && b == [] && c == [] && d == []
  {
  }

  lemma HeadOk(t: Db, a: nat, b: nat)
    requires a <= b <= |t.rows| && Ordered(t.rows)
    requires forall k :: 0 <= k < |t.rows| ==> (Covers(None, None, t.rows[k].id) <==> a <= k < b)
    ensures HeadFailures(t.rows[a..b], t) == [] <==>
            t.head.Some? && LastHash(t) == Some(t.head.value.lastHash) && t.head.value.count - t.head.value.pruned == |t.rows|
  {
    var n := |t.rows|;
    if n > 0 {
      assert Covers(None, None, t.rows[n - 1].id) <==> a <= n - 1 < b;
      if a < b {
        assert t.rows[b - 1].id > 0 by {
          assert Covers(None, None, t.rows[b - 1].id);
        }
        assert b == n;
      }
    }
  }

  /** What a full check says about the chain row, and a ranged one does not: whether it has the newest
      hash, with the newest row if there is one, and whether it counts the rows that are there. */
  lemma HeadReport(t: Db, last: Option<int>, startId: Option<int>, endId: Option<int>)
    requires Ordered(t.rows)
    ensures HeadMismatch(last) in VerifyAll(t) <==>
            last == (if t.rows != [] && 0 < t.rows[|t.rows| - 1].id then Some(t.rows[|t.rows| - 1].id) else None) &&
            (t.head.None? || LastHash(t) != Some(t.head.value.lastHash))
    ensures CountMismatch in VerifyAll(t) <==> t.head.None? || t.head.value.count != t.head.value.pruned + |t.rows|
    ensures HeadMismatch(last) !in VerifyRange(t, startId, endId) && CountMismatch !in VerifyRange(t, startId, endId)
  {
    hide InRange, Before, Walk, CheckCheckpoint, FirstRowFailures, Covers;
    var a, b := RangeAt(t.rows, None, None);
    var scanned := t.rows[a..b];
    NotAboutHead(scanned, t.rows, Some(StartHash(Checkpoint(t))), Checkpoint(t), last);
    HeadSays(t, a, b, last);
    var c, d := RangeAt(t.rows, startId, endId);
    NotAboutHead(t.rows[c..d], t.rows, RangeStart(t, startId), Checkpoint(t), last);
  }

  lemma NotAboutHead(scanned: seq<Row>, rows: seq<Row>, start: Option<Hash>, c: Head, last: Option<int>)
    ensures forall f :: f in [HeadMismatch(last), CountMismatch] ==>
      f !in FirstRowFailures(scanned, c) && f !in Walk(scanned, start) && f !in CheckCheckpoint(rows, c)
  {
    hide Walk, NewestPruned, Expected;
    forall f | f in [HeadMismatch(last), CountMismatch]
      ensures f !in Walk(scanned, start)
    {
      if f in Walk(scanned, start) {
        var k := WalkFrom(scanned, start, f);
      }
    }
  }

  lemma HeadSays(t: Db, a: nat, b: nat, last: Option<int>)
    requires a <= b <= |t.rows| && Ordered(t.rows)
    requires forall k :: 0 <= k < |t.rows| ==> (Covers(None, None, t.rows[k].id) <==> a <= k < b)
    ensures HeadMismatch(last) in HeadFailures(t.rows[a..b], t) <==>
            last == (if t.rows != [] && 0 < t.rows[|t.rows| - 1].id then Some(t.rows[|t.rows| - 1].id) else None) &&
            (t.head.None? || LastHash(t) != Some(t.head.value.lastHash))
    ensures CountMismatch in HeadFailures(t.rows[a..b], t) <==> t.head.None? || t.head.value.count != t.head.value.pruned + |t.rows|
  {
    var n := |t.rows|;
    if n > 0 {
      assert Covers(None, None, t.rows[n - 1].id) <==> a <= n - 1 < b;
      if a < b {
        assert t.rows[b - 1].id > 0 by {
          assert Covers(None, None, t.rows[b - 1].id);
        }
        assert b == n;
      }
    }
  }

  // ----- What a check says of each row ---------------------------------------------------------------

  function Report(t: Db, startId: Option<int>, endId: Option<int>): seq<Failure> {
    if startId.None? && endId.None? then VerifyAll(t) else VerifyRange(t, startId, endId)
  }

  /** What row k is compared with: as LinkTarget, but rows of the range without a hash are skipped. */
  function ComparedTo(t: Db, startId: Option<int>, k: nat): Option<Hash>
    requires k < |t.rows|
  {
    if k > 0 && Covers(startId, None, t.rows[k - 1].id) && t.rows[k - 1].hash.None? then ComparedTo(t, startId, k - 1)
    else LinkTarget(t, startId, k)
  }

  predicate OfRow(f: Failure, id: int) {
    f == Unchained(id) || f == BrokenLink(id) || f == ContentAltered(id)
  }

  /** Failures of rows come from the walk alone. */
  lemma OnlyFromWalk(t: Db, startId: Option<int>, endId: Option<int>, a: nat, b: nat, f: Failure, id: int)
    requires a <= b <= |t.rows| && OfRow(f, id)
    requires InRange(t.rows, if startId.Some? then startId.value - 1 else 0, endId) == t.rows[a..b]
    ensures f in Report(t, startId, endId) <==> f in Walk(t.rows[a..b], RangeStart(t, startId))
  {
    hide Walk, InRange, Before, NewestPruned;
    CheckpointOnly(t.rows[a..b], t.rows, Checkpoint(t), f, id);
  }

  lemma CheckpointOnly(scanned: seq<Row>, rows: seq<Row>, c: Head, f: Failure, id: int)
    requires OfRow(f, id)
    ensures f !in FirstRowFailures(scanned, c) && f !in CheckCheckpoint(rows, c)
  {
    hide NewestPruned;
  }

  predicate SaidAt(rows: seq<Row>, start: Option<Hash>, k: nat, f: Failure)
    requires k < |rows|
  {
    f in RowFailures(rows[k], Expected(rows[..k], start))
  }

  lemma {:induction false} WalkFrom(rows: seq<Row>, start: Option<Hash>, f: Failure) returns (k: nat)
    requires f in Walk(rows, start)
    ensures k < |rows| && SaidAt(rows, start, k, f)
  {
    k := |rows| - 1;
    if !SaidAt(rows, start, k, f) {
      var n := k;
      k := WalkFrom(rows[..n], start, f);
      assert rows[..n][..k] == rows[..k];
    }
  }

  lemma {:induction false} WalkTo(rows: seq<Row>, start: Option<Hash>, k: nat, f: Failure)
    requires k < |rows| && SaidAt(rows, start, k, f)
    ensures f in Walk(rows, start)
  {
    hide Walk, Expected, RowFailures;
    var n := |rows| - 1;
    WalkNext(rows, start, n);
    assert rows[..n + 1] == rows;
    if k < n {
      assert rows[..n][..k] == rows[..k];
      WalkTo(rows[..n], start, k, f);
    }
  }

  lemma RowOfFailure(r: Row, expected: Option<Hash>, f: Failure, id: int)
    requires f in RowFailures(r, expected) && OfRow(f, id)
    ensures r.id == id
  {
  }

  /** In a walk over rows with different ids, a row's failures are its own. */
  lemma WalkSays(rows: seq<Row>, start: Option<Hash>, k: nat, f: Failure)
    requires Ordered(rows) && k < |rows| && OfRow(f, rows[k].id)
    ensures f in Walk(rows, start) <==> f in RowFailures(rows[k], Expected(rows[..k], start))
  {
    hide Walk, Expected;
    if f in Walk(rows, start) {
      var i := WalkFrom(rows, start, f);
      assert rows[i].id == rows[k].id;
    }
    if SaidAt(rows, start, k, f) {
      WalkTo(rows, start, k, f);
    }
  }

  lemma WalkSilent(rows: seq<Row>, start: Option<Hash>, id: int, f: Failure)
    requires OfRow(f, id) && forall i :: 0 <= i < |rows| ==> rows[i].id != id
    ensures f !in Walk(rows, start)
  {
    hide Walk, Expected;
    if f in Walk(rows, start) {
      var i := WalkFrom(rows, start, f);
      RowOfFailure(rows[i], Expected(rows[..i], start), f, id);
    }
  }

  lemma {:induction false} ExpectedInRange(t: Db, startId: Option<int>, endId: Option<int>, a: nat, k: nat)
    requires a <= k < |t.rows|
    requires a > 0 && startId.None? ==> t.rows[a - 1].id <= 0
    requires startId.Some? ==> Before(t.rows, startId.value) == if a > 0 then Some(t.rows[a - 1]) else None
    requires forall i :: a <= i <= k ==> Covers(startId, endId, t.rows[i].id)
    requires a > 0 ==> !Covers(startId, None, t.rows[a - 1].id)
    ensures Expected(t.rows[a..k], RangeStart(t, startId)) == ComparedTo(t, startId, k)
  {
    var start := RangeStart(t, startId);
    TargetInRange(t, startId, endId, a, k, start);
    if k == a {
      assert t.rows[a..k] == [];
      WalkNone(start);
    } else {
      ExpectedInRange(t, startId, endId, a, k - 1);
      assert t.rows[a..k][..k - 1 - a] == t.rows[a..k - 1];
      assert t.rows[a..k][k - 1 - a] == t.rows[k - 1];
      assert Covers(startId, endId, t.rows[k - 1].id);
      hide Before, RangeStart;
    }
  }

  /** For any tables and any range: a row of the range is reported as unchained exactly when it lacks a
      hash or a predecessor, else as altered exactly when its hash is not that of its content, and as a
      broken link exactly when its predecessor is not the hash in front of it. Rows outside the range
      are not reported. */
  lemma RowReport(t: Db, startId: Option<int>, endId: Option<int>, k: nat)
    requires Ordered(t.rows) && k < |t.rows|
    ensures var f, r := Report(t, startId, endId), t.rows[k];
            if Covers(startId, endId, r.id) then
              (Unchained(r.id) in f <==> !Chained(r)) &&
              (ContentAltered(r.id) in f <==> Chained(r) && !ContentOk(r)) &&
              (BrokenLink(r.id) in f <==> Chained(r) && r.prev != ComparedTo(t, startId, k))
            else Unchained(r.id) !in f && ContentAltered(r.id) !in f && BrokenLink(r.id) !in f
  {
    hide Report, ComparedTo, Covers, RowFailures;
    var r := t.rows[k];
    InReport(t, startId, endId, k, Unchained(r.id));
    InReport(t, startId, endId, k, ContentAltered(r.id));
    InReport(t, startId, endId, k, BrokenLink(r.id));
    RowSays(r, ComparedTo(t, startId, k));
  }

  lemma RowSays(r: Row, expected: Option<Hash>)
    ensures Unchained(r.id) in RowFailures(r, expected) <==> !Chained(r)
    ensures ContentAltered(r.id) in RowFailures(r, expected) <==> Chained(r) && !ContentOk(r)
    ensures BrokenLink(r.id) in RowFailures(r, expected) <==> Chained(r) && r.prev != expected
  {
  }

  lemma InReport(t: Db, startId: Option<int>, endId: Option<int>, k: nat, f: Failure)
    requires Ordered(t.rows) && k < |t.rows| && OfRow(f, t.rows[k].id)
    ensures f in Report(t, startId, endId) <==>
            Covers(startId, endId, t.rows[k].id) && f in RowFailures(t.rows[k], ComparedTo(t, startId, k))
  {
    hide Report, Walk, InRange, Before, Expected, RangeStart, ComparedTo, Covers, RowFailures, OfRow;
    var r := t.rows[k];
    var a, b := RangeAt(t.rows, startId, endId);
    var scanned, start := t.rows[a..b], RangeStart(t, startId);
    OnlyFromWalk(t, startId, endId, a, b, f, r.id);
    if a <= k < b {
      assert scanned[k - a] == r && scanned[..k - a] == t.rows[a..k];
      NotBeforeRange(t.rows, startId, a);
      ExpectedInRange(t, startId, endId, a, k);
      WalkSays(scanned, start, k - a, f);
    } else {
      WalkSilent(scanned, start, r.id, f);
    }
  }

  lemma NotBeforeRange(rows: seq<Row>, startId: Option<int>, a: nat)
    requires Ordered(rows) && a <= |rows|
    requires a > 0 && startId.None? ==> rows[a - 1].id <= 0
    requires startId.Some? ==> Before(rows, startId.value) == if a > 0 then Some(rows[a - 1]) else None
    ensures a > 0 ==> !Covers(startId, None, rows[a - 1].id)
  {
    if startId.Some? && a > 0 {
      BeforeBelow(rows, startId.value);
    }
  }

  lemma {:induction false} BeforeBelow(rows: seq<Row>, id: int)
    ensures Before(rows, id).Some? ==> Before(rows, id).value.id < id
  {
    if rows != [] {
      BeforeBelow(rows[..|rows| - 1], id);
    }
  }

  // ----- What alterations a check finds --------------------------------------------------------------

  /** Tamper evidence of a range behind a first row, here the rows a, ..., b - 1: if the row in front of
      it and the last row in it show the hashes of honest rows i and j, the check passes exactly when
      the range holds what was written after row i and up to row j. */
  lemma RangeTamperEvident(db: Db, h: seq<Body>, t: Db, startId: int, endId: Option<int>, i: nat, j: nat, a: nat, b: nat)
    requires Honest(db, h) && Ordered(t.rows) && i < |db.rows| && j < |db.rows| && 0 < a < b <= |t.rows|
    requires forall k :: 0 <= k < |t.rows| ==> (Covers(Some(startId), endId, t.rows[k].id) <==> a <= k < b)
    requires t.rows[a - 1].hash == db.rows[i].hash && t.rows[b - 1].hash == db.rows[j].hash
    ensures VerifyRange(t, Some(startId), endId) == [] <==> i <= j && SameContents(t.rows[a..b], db.rows[i + 1..j + 1])
  {
    hide Walk, InRange, Before, ChainHash, Honest, Links, Expected, Covers, SameContents;
    var q := db.head.value.pruned by {
      HonestParts(db, h);
    }
    HonestParts(db, h);
    LinkedAt(db.rows, h, q, i);
    LinkedAt(db.rows, h, q, j);
    var scanned, start := t.rows[a..b], Some(ChainHash(h, q + i + 1));
    WalkOfRange(t, startId, endId, a, b);
    ExpectedIsLast(scanned, start);
    if Walk(scanned, start) == [] {
      WalkBack(scanned, h, q + i + 1, q + j + 1);
      SliceLinks(db.rows, h, q, i + 1, j + 1);
      LinksSame(scanned, db.rows[i + 1..j + 1], h, q + i + 1);
    } else if i <= j && SameContents(scanned, db.rows[i + 1..j + 1]) {
      SliceLinks(db.rows, h, q, i + 1, j + 1);
      LinksOfSame(scanned, db.rows[i + 1..j + 1], h, q + i + 1);
      WalkLinked(scanned, h, q + i + 1);
    }
  }

  lemma WalkOfRange(t: Db, startId: int, endId: Option<int>, a: nat, b: nat)
    requires Ordered(t.rows) && 0 < a < b <= |t.rows|
    requires forall k :: 0 <= k < |t.rows| ==> (Covers(Some(startId), endId, t.rows[k].id) <==> a <= k < b)
    ensures VerifyRange(t, Some(startId), endId) == Walk(t.rows[a..b], t.rows[a - 1].hash)
  {
    hide Walk, InRange, Before, Covers;
    var a', b' := RangeAt(t.rows, Some(startId), endId);
    assert Covers(Some(startId), endId, t.rows[a].id) && Covers(Some(startId), endId, t.rows[b - 1].id);
    assert a' <= a && b <= b';
    assert Covers(Some(startId), endId, t.rows[a'].id) && Covers(Some(startId), endId, t.rows[b' - 1].id);
  }

  /** Tamper evidence of the chain row: with the rows as honest steps wrote them, and no matter how the
      chain row was altered, a full check passes exactly when it has the newest hash, counts the rows
      that are there, and tells of the same prune, or of none if there was none. */
  lemma HeadTamperEvident(db: Db, h: seq<Body>, t: Db)
    requires Honest(db, h) && t.rows == db.rows && t.head.Some?
    ensures var c, d := db.head.value, t.head.value;
            VerifyAll(t) == [] <==>
            d.lastHash == c.lastHash && d.count - d.pruned == c.count - c.pruned &&
            (if c.pruned == 0 then !IsSet(d)
             else d.anchorId == c.anchorId && d.anchorHash == c.anchorHash && d.pruned == c.pruned)
  {
    hide VerifyAll, Honest, RowsOk, BehindAnchor, CheckpointTold, Links, ChainHash, LastHash, CheckpointHonest, ChainStart;
    var c, d := db.head.value, t.head.value by {
      HonestParts(db, h);
    }
    HonestOrdered(db, h);
    HonestParts(db, h);
    VerifyAcceptsAll(db, h);
    FullPasses(db);
    FullPasses(t);
    HonestTold(db, h, d);
    HonestEnd(db, h);
    if d.anchorId == c.anchorId && d.anchorHash == c.anchorHash {
      SameAnchor(db, t);
    }
  }

  /** Which checkpoints the notes of an honest log agree with. */
  lemma HonestTold(db: Db, h: seq<Body>, d: Head)
    requires Honest(db, h)
    ensures var c := db.head.value;
            CheckpointTold(db.rows, Some(d)) <==>
            if c.pruned == 0 then !IsSet(d) else d.anchorId == c.anchorId && d.anchorHash == c.anchorHash && d.pruned == c.pruned
  {
    var n := NewestIs(db.rows);
    hide NewestPruned, Links, ChainHash;
    forall k: nat | IsLastNote(db.rows, k) && IsLastNote(db.rows, n)
      ensures k == n
    {
      LastNoteUnique(db.rows, k, n);
    }
  }

  lemma HonestEnd(db: Db, h: seq<Body>)
    requires Honest(db, h)
    ensures db.rows == [] ==> db.head.value.pruned == 0
    ensures db.head.value.pruned == 0 ==> !IsSet(db.head.value)
  {
    hide Links, ChainHash;
  }

  /** Both tables start the chain at the same place and have the same rows. */
  lemma SameAnchor(db: Db, t: Db)
    requires t.rows == db.rows && db.head.Some? && t.head.Some?
    requires db.head.value.anchorId == t.head.value.anchorId && db.head.value.anchorHash == t.head.value.anchorHash
    ensures RowsOk(db, None, None) <==> RowsOk(t, None, None)
    ensures BehindAnchor(db, None, None) <==> BehindAnchor(t, None, None)
    ensures LastHash(db) == LastHash(t)
  {
    assert ChainStart(db) == ChainStart(t);
    hide ChainStart;
    assert forall k :: 0 <= k < |t.rows| ==> (RowOk(db, None, k) <==> RowOk(t, None, k));
    hide RowOk;
  }
}
