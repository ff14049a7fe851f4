/** What the hash chain of the audit log guarantees: honest logs verify, altered ones do not. */
module AuditTamper {
  import opened Wrappers
  import opened AuditLog

  // ----- The chain over a history ------------------------------------------------------------

  /** The hash after the first k entries ever chained. */
  function ChainHash(h: seq<Body>, k: nat): Hash
    requires k <= |h|
  {
    if k == 0 then Genesis else Digest(ChainHash(h, k - 1), h[k - 1])
  }

  lemma {:induction false} ChainHashInjective(h: seq<Body>, i: nat, j: nat)
    requires i <= |h| && j <= |h| && ChainHash(h, i) == ChainHash(h, j)
    ensures i == j
  {
    if i > 0 && j > 0 {
      ChainHashInjective(h, i - 1, j - 1);
    }
  }

  lemma {:induction false} ChainHashPrefix(h: seq<Body>, more: seq<Body>, k: nat)
    requires k <= |h|
    ensures ChainHash(h + more, k) == ChainHash(h, k)
  {
    if k > 0 {
      ChainHashPrefix(h, more, k - 1);
    }
  }

  /** The rows are entries q, q + 1, ... of the history. */
  ghost predicate Links(rows: seq<Row>, h: seq<Body>, q: nat) {
    q + |rows| <= |h| &&
    forall k :: 0 <= k < |rows| ==>
      rows[k].prev == Some(ChainHash(h, q + k)) && rows[k].hash == Some(ChainHash(h, q + k + 1)) && rows[k].body == h[q + k]
  }

  /** The checkpoint after `pruned` entries of the history were removed. */
  ghost predicate CheckpointHonest(c: Head, rows: seq<Row>, h: seq<Body>)
    requires 0 <= c.pruned <= |h|
  {
    if c.pruned == 0 then c.anchorId.None? && c.anchorHash.None? && NewestPruned(rows).None?
    else
      c.anchorHash == Some(ChainHash(h, c.pruned)) && c.anchorId.Some? &&
      NewestPruned(rows).Some? && NoteAgrees(NewestPruned(rows).value.body.details, c) &&
      forall i :: 0 <= i < |rows| ==> c.anchorId.value < rows[i].id
  }

  /** The tables as honest appends and prunes leave them, h being all entries ever chained. */
  ghost predicate Honest(db: Db, h: seq<Body>) {
    KeysOk(db) && db.head.Some? &&
    var c := db.head.value;
    c.count == |h| && c.lastHash == ChainHash(h, |h|) &&
    0 <= c.pruned <= |h| && |db.rows| == |h| - c.pruned && Links(db.rows, h, c.pruned) &&
    CheckpointHonest(c, db.rows, h) && (c.anchorId.Some? ==> c.anchorId.value < db.nextId)
  }

  // ----- Walking over linked rows ----------------------------------------------------------------

  lemma {:induction false} WalkLinked(rows: seq<Row>, h: seq<Body>, q: nat)
    requires Links(rows, h, q)
    ensures Walk(rows, Some(ChainHash(h, q))) == []
    ensures Expected(rows, Some(ChainHash(h, q))) == Some(ChainHash(h, q + |rows|))
  {
    if rows != [] {
      var n, start := |rows| - 1, Some(ChainHash(h, q));
      WalkLinked(rows[..n], h, q);
      LinkedAt(rows, h, q, n);
      assert ChainHash(h, q + n + 1) == Digest(ChainHash(h, q + n), h[q + n]);
      WalkNext(rows, start, n);
      assert rows[..n + 1] == rows;
      hide Walk, Expected, ChainHash;
    }
  }

  lemma {:induction false} AllInRange(rows: seq<Row>, lo: int)
    requires forall i :: 0 <= i < |rows| ==> rows[i].id > lo
    ensures InRange(rows, lo, None) == rows
  {
    if rows != [] {
      AllInRange(rows[..|rows| - 1], lo);
    }
  }

  lemma StartHashHonest(db: Db, h: seq<Body>)
    requires Honest(db, h)
    ensures StartHash(db.head.value) == ChainHash(h, db.head.value.pruned)
  {
  }

  /** A full check of an honest log reports nothing. */
  lemma VerifyAcceptsAll(db: Db, h: seq<Body>)
    requires Honest(db, h)
    ensures VerifyAll(db) == []
  {
    hide Walk, InRange, NewestPruned, ChainHash, Expected, NoteAgrees, StartHash;
    var c := db.head.value;
    AllInRange(db.rows, 0);
    StartHashHonest(db, h);
    WalkLinked(db.rows, h, c.pruned);
    CheckpointAccepts(c, db.rows, h);
  }

  lemma CheckpointAccepts(c: Head, rows: seq<Row>, h: seq<Body>)
    requires 0 <= c.pruned <= |h| && CheckpointHonest(c, rows, h)
    ensures CheckCheckpoint(rows, c) == [] && FirstRowFailures(rows, c) == []
  {
    hide NewestPruned, ChainHash;
  }

  /** How many rows have an id of at most lo. */
  function UpTo(rows: seq<Row>, lo: int): (n: nat)
    ensures n <= |rows|
  {
    if rows == [] then 0
    else if rows[|rows| - 1].id <= lo then |rows|
    else UpTo(rows[..|rows| - 1], lo)
  }

  lemma {:induction false} UpToBound(rows: seq<Row>, lo: int)
    requires Ordered(rows)
    ensures var a := UpTo(rows, lo);
      (forall i :: 0 <= i < a ==> rows[i].id <= lo) && (forall i :: a <= i < |rows| ==> rows[i].id > lo)
  {
    if rows != [] {
      UpToBound(rows[..|rows| - 1], lo);
    }
  }

  function UpToEnd(rows: seq<Row>, hi: Option<int>): (n: nat)
    ensures n <= |rows|
  {
    if hi.Some? then UpTo(rows, hi.value) else |rows|
  }

  lemma UpToAll(rows: seq<Row>, hi: Option<int>)
    requires forall i :: 0 <= i < |rows| ==> hi.None? || rows[i].id <= hi.value
    ensures UpToEnd(rows, hi) == |rows|
  {
  }

  lemma {:induction false} RangeIsSlice(rows: seq<Row>, lo: int, hi: Option<int>)
    requires Ordered(rows)
    ensures var a, b := UpTo(rows, lo), UpToEnd(rows, hi);
      InRange(rows, lo, hi) == if a <= b then rows[a..b] else []
  {
    if rows != [] {
      RangeIsSlice(rows[..|rows| - 1], lo, hi);
      SliceStep(rows, lo, hi);
    }
  }

  lemma UpToStep(rows: seq<Row>, lo: int, hi: Option<int>)
    requires rows != []
    ensures var n := |rows| - 1; var init, r := rows[..n], rows[n];
      UpTo(rows, lo) == (if r.id <= lo then n + 1 else UpTo(init, lo)) &&
      UpToEnd(rows, hi) == (if hi.None? || r.id <= hi.value then n + 1 else UpToEnd(init, hi)) &&
      InRange(rows, lo, hi) == InRange(init, lo, hi) + if lo < r.id && (hi.None? || r.id <= hi.value) then [r] else []
  {
  }

  lemma SliceStep(rows: seq<Row>, lo: int, hi: Option<int>)
    requires Ordered(rows) && rows != []
    requires var init := rows[..|rows| - 1]; var a, b := UpTo(init, lo), UpToEnd(init, hi);
      InRange(init, lo, hi) == if a <= b then init[a..b] else []
    ensures var a, b := UpTo(rows, lo), UpToEnd(rows, hi);
      InRange(rows, lo, hi) == if a <= b then rows[a..b] else []
  {
    hide UpTo, UpToEnd, InRange;
    UpToStep(rows, lo, hi);
    var n := |rows| - 1;
    var init, r := rows[..n], rows[n];
    var a, b := UpTo(rows, lo), UpToEnd(rows, hi);
    if r.id <= lo {
      NothingLater(rows, lo, hi);
    } else if hi.None? || r.id <= hi.value {
      forall i | 0 <= i < |init|
        ensures hi.None? || init[i].id <= hi.value
      {
        assert init[i] == rows[i] && rows[i].id < rows[n].id;
      }
      UpToAll(init, hi);
      assert rows[a..] == init[a..] + [r];
    } else if a <= b {
      assert rows[a..b] == init[a..b];
    }
  }

  lemma {:induction false} BeforeIs(rows: seq<Row>, id: int)
    ensures var a := UpTo(rows, id - 1); Before(rows, id) == if a > 0 then Some(rows[a - 1]) else None
  {
    if rows != [] {
      BeforeIs(rows[..|rows| - 1], id);
    }
  }

  lemma SliceLinks(rows: seq<Row>, h: seq<Body>, q: nat, a: nat, b: nat)
    requires Links(rows, h, q) && a <= b <= |rows|
    ensures Links(rows[a..b], h, q + a)
  {
    hide ChainHash;
  }

  /** So does the check of any range of ids. */
  lemma VerifyAcceptsRange(db: Db, h: seq<Body>, startId: Option<int>, endId: Option<int>)
    requires Honest(db, h)
    ensures VerifyRange(db, startId, endId) == []
  {
    hide Walk, InRange, NewestPruned, ChainHash, Expected, NoteAgrees, StartHash, Before, UpTo, UpToEnd, Links, CheckCheckpoint, FirstRowFailures;
    var c, rows := db.head.value, db.rows;
    var lo := if startId.Some? then startId.value - 1 else 0;
    var a, b := UpTo(rows, lo), UpToEnd(rows, endId);
    RangeIsSlice(rows, lo, endId);
    BeforeIs(rows, lo + 1);
    UpToBound(rows, lo);
    var scanned := InRange(rows, lo, endId);
    SliceLinks(rows, h, c.pruned, a, if a <= b then b else a);
    assert a > b ==> rows[a..a] == [];
    WalkLinked(scanned, h, c.pruned + a);
    StartHashHonest(db, h);
    CheckpointAccepts(c, rows, h);
    if a > 0 {
      LinkedAt(rows, h, c.pruned, a - 1);
      assert startId.Some?;
    } else {
      FirstAccepts(c, rows, scanned, b, h);
    }
  }

  lemma LinkedAt(rows: seq<Row>, h: seq<Body>, q: nat, k: nat)
    requires Links(rows, h, q) && k < |rows|
    ensures q + k + 1 <= |h| && rows[k].hash == Some(ChainHash(h, q + k + 1)) && rows[k].prev == Some(ChainHash(h, q + k)) && rows[k].body == h[q + k]
  {
    hide ChainHash;
  }

  lemma FirstAccepts(c: Head, rows: seq<Row>, scanned: seq<Row>, b: nat, h: seq<Body>)
    requires 0 <= c.pruned <= |h| && CheckpointHonest(c, rows, h) && b <= |rows| && scanned == rows[0..b]
    ensures FirstRowFailures(scanned, c) == []
  {
    hide NewestPruned, ChainHash;
  }

  // ----- What honest steps keep -------------------------------------------------------------------

  lemma NewestAfterAppend(rows: seq<Row>, r: Row)
    ensures NewestPruned(rows + [r]) == if r.body.action == PRUNED_ACTION then Some(r) else NewestPruned(rows)
  {
    assert (rows + [r])[..|rows|] == rows;
  }

  lemma LinksAppend(rows: seq<Row>, h: seq<Body>, q: nat, body: Body, r: Row)
    requires Links(rows, h, q) && q + |rows| == |h|
    requires r.body == body && r.prev == Some(ChainHash(h, |h|)) && r.hash == Some(Digest(ChainHash(h, |h|), body))
    ensures Links(rows + [r], h + [body], q)
  {
    forall k | 0 <= k <= |h|
      ensures ChainHash(h + [body], k) == ChainHash(h, k)
    {
      ChainHashPrefix(h, [body], k);
    }
    assert ChainHash(h + [body], |h| + 1) == Digest(ChainHash(h, |h|), body);
    hide ChainHash;
  }

  /** An ordinary append extends the history by one entry, in a row of its own with the next id. */
  lemma AppendKeeps(db: Db, h: seq<Body>, body: Body, scope: string)
    requires Honest(db, h) && body.action != PRUNED_ACTION
    ensures Append(db, body, scope).Some? && Honest(Append(db, body, scope).value, h + [body])
    ensures var rows := Append(db, body, scope).value.rows;
      |rows| == |db.rows| + 1 && rows[..|db.rows|] == db.rows && rows[|db.rows|].scope == scope && rows[|db.rows|].id == db.nextId
  {
    hide NewestPruned, Links;
    var c, db' := db.head.value, Append(db, body, scope).value;
    var r := db'.rows[|db.rows|];
    LinksAppend(db.rows, h, c.pruned, body, r);
    NewestAfterAppend(db.rows, r);
    ChainHashPrefix(h, [body], c.pruned);
    assert ChainHash(h + [body], |h| + 1) == Digest(ChainHash(h + [body], |h|), body);
    ChainHashPrefix(h, [body], |h|);
  }

  /** The first n rows are gone, and a note of when, by whom, how many, up to which row and how many
      in all is chained behind the others. */
  ghost predicate PrunedTo(db: Db, h: seq<Body>, n: nat, cutoff: int, now: int, user: Option<string>, p: Db)
    requires 0 < n <= |db.rows| && db.head.Some?
  {
    var last := db.rows[n - 1];
    var told := PruneNote(cutoff, n, last.id, last.hash, db.head.value.pruned + n);
    |p.rows| == |db.rows| - n + 1 && p.rows[..|db.rows| - n] == db.rows[n..] &&
    Honest(p, h + [Body(user, "audit:pruned", told, None, now)])
  }

  /** A prune removes exactly the rows with an id below the boundary: an id-prefix, all of them
      older than the cutoff. It appends its note, and the log stays honest. */
  lemma PruneKeeps(db: Db, h: seq<Body>, cutoff: int, now: int, user: Option<string>)
    requires Honest(db, h)
    ensures var n := OldPrefix(db.rows, cutoff); var p := Prune(db, cutoff, now, user);
      p.Some? && (n == 0 ==> p.value == db) && (n > 0 ==> PrunedTo(db, h, n, cutoff, now, user, p.value))
    ensures db.rows != [] ==> var n, boundary := OldPrefix(db.rows, cutoff), BoundaryId(db.rows, cutoff);
      boundary.Some? && forall i :: 0 <= i < |db.rows| ==>
        (db.rows[i].id < boundary.value <==> i < n) && (i < n ==> db.rows[i].body.createdAt < cutoff) &&
        (i == n ==> db.rows[i].body.createdAt >= cutoff)
  {
    hide *;
    PruneLeavesHonest(db, h, cutoff, now, user);
    HonestOrdered(db, h);
    BoundaryOfOld(db.rows, cutoff);
  }

  lemma HonestOrdered(db: Db, h: seq<Body>)
    requires Honest(db, h)
    ensures Ordered(db.rows)
  {
    hide Links, ChainHash, CheckpointHonest;
  }

  lemma BoundaryOfOld(rows: seq<Row>, cutoff: int)
    requires Ordered(rows)
    ensures rows != [] ==> var n, boundary := OldPrefix(rows, cutoff), BoundaryId(rows, cutoff);
      boundary.Some? && forall i :: 0 <= i < |rows| ==>
        (rows[i].id < boundary.value <==> i < n) && (i < n ==> rows[i].body.createdAt < cutoff) &&
        (i == n ==> rows[i].body.createdAt >= cutoff)
  {
    hide BoundaryId, OldPrefix;
    BoundarySplits(rows, cutoff);
  }

  lemma PruneLeavesHonest(db: Db, h: seq<Body>, cutoff: int, now: int, user: Option<string>)
    requires Honest(db, h)
    ensures var n := OldPrefix(db.rows, cutoff); var p := Prune(db, cutoff, now, user);
      p.Some? && (n == 0 ==> p.value == db) && (n > 0 ==> PrunedTo(db, h, n, cutoff, now, user, p.value))
  {
    hide Honest, OldPrefix;
    var n := OldPrefix(db.rows, cutoff);
    HonestParts(db, h);
    if n > 0 {
      var c, last, d := db.head.value, db.rows[n - 1], DropBlock(db, n);
      var note := PruneBody(user, now, cutoff, n, last.id, last.hash, d.head.value.pruned);
      PruneStep(db, h, n, note, "");
      assert Honest(Prune(db, cutoff, now, user).value, h + [note]);
    }
  }

  /** Dropping a block and chaining any note that tells the new checkpoint. */
  lemma PruneStep(db: Db, h: seq<Body>, n: nat, note: Body, scope: string)
    requires Honest(db, h) && 0 < n <= |db.rows|
    requires note.action == PRUNED_ACTION && NoteAgrees(note.details, DropBlock(db, n).head.value)
    ensures Append(DropBlock(db, n), note, scope).Some? && Honest(Append(DropBlock(db, n), note, scope).value, h + [note])
  {
    hide NewestPruned, Links;
    var c, d := db.head.value, DropBlock(db, n);
    var db' := Append(d, note, scope).value;
    var r := db'.rows[|d.rows|];
    assert db.rows[n..] == db.rows[n..|db.rows|];
    SliceLinks(db.rows, h, c.pruned, n, |db.rows|);
    LinksAppend(d.rows, h, c.pruned + n, note, r);
    NewestAfterAppend(d.rows, r);
    LinkedAt(db.rows, h, c.pruned, n - 1);
    ChainHashPrefix(h, [note], c.pruned + n);
    assert ChainHash(h + [note], |h| + 1) == Digest(ChainHash(h + [note], |h|), note);
    ChainHashPrefix(h, [note], |h|);
  }

  // ----- Alterations ---------------------------------------------------------------------------------

  /** The hashed contents and the hashes agree; ids and unhashed columns may differ. */
  ghost predicate SameContents(a: seq<Row>, b: seq<Row>) {
    |a| == |b| && forall k :: 0 <= k < |a| ==> a[k].body == b[k].body && a[k].prev == b[k].prev && a[k].hash == b[k].hash
  }

  /** A walk without failures that ends at a hash of the history went over the history. */
  lemma {:induction false} WalkBack(rows: seq<Row>, h: seq<Body>, q: nat, m: nat)
    requires q <= |h| && m <= |h|
    requires Walk(rows, Some(ChainHash(h, q))) == []
    requires Expected(rows, Some(ChainHash(h, q))) == Some(ChainHash(h, m))
    ensures q + |rows| == m && Links(rows, h, q)
  {
    hide Walk, Expected, RowFailures, ChainHash;
    if rows == [] {
      NoRows(Some(ChainHash(h, q)));
      ChainHashInjective(h, q, m);
    } else {
      var n := |rows| - 1;
      var start := Some(ChainHash(h, q));
      WalkEnds(rows, start);
      LinkBack(rows[n], Expected(rows[..n], start), h, m);
      WalkBack(rows[..n], h, q, m - 1);
    }
  }

  lemma NoRows(start: Option<Hash>)
    ensures Expected([], start) == start
  {
  }

  lemma WalkEnds(rows: seq<Row>, start: Option<Hash>)
    requires rows != [] && Walk(rows, start) == []
    ensures var n := |rows| - 1;
      Walk(rows[..n], start) == [] && RowFailures(rows[n], Expected(rows[..n], start)) == [] && Expected(rows, start) == rows[n].hash
  {
  }

  /** A row without failures whose hash is the m-th holds the m-th entry behind the hash before. */
  lemma LinkBack(r: Row, expected: Option<Hash>, h: seq<Body>, m: nat)
    requires m <= |h| && RowFailures(r, expected) == [] && r.hash == Some(ChainHash(h, m))
    ensures m > 0 && r.prev == expected == Some(ChainHash(h, m - 1)) && r.body == h[m - 1]
  {
  }

  lemma NoFailures(t: Db)
    requires VerifyAll(t) == []
    ensures var c, scanned := Checkpoint(t), InRange(t.rows, 0, None);
      FirstRowFailures(scanned, c) == [] && Walk(scanned, Some(StartHash(c))) == [] && HeadFailures(scanned, t) == [] && CheckCheckpoint(t.rows, c) == []
  {
    hide FirstRowFailures, Walk, HeadFailures, CheckCheckpoint, InRange, StartHash;
  }

  lemma {:induction false} NewestSame(a: seq<Row>, b: seq<Row>)
    requires SameContents(a, b)
    ensures NewestPruned(a).Some? == NewestPruned(b).Some?
    ensures NewestPruned(a).Some? ==> NewestPruned(a).value.body == NewestPruned(b).value.body
  {
    if a != [] {
      NewestSame(a[..|a| - 1], b[..|b| - 1]);
    }
  }

  /** A full check that passes has walked over exactly the surviving part of the history. */
  lemma PassingWalk(db: Db, h: seq<Body>, t: Db)
    requires Honest(db, h) && t.head == db.head && Ordered(t.rows) && VerifyAll(t) == []
    ensures InRange(t.rows, 0, None) == t.rows && Links(t.rows, h, db.head.value.pruned) && |t.rows| == |db.rows|
    ensures FirstRowFailures(t.rows, db.head.value) == []
  {
    var c, scanned := db.head.value, InRange(t.rows, 0, None);
    NoFailures(t);
    StartHashHonest(db, h);
    ExpectedIsLast(scanned, Some(StartHash(c)));
    hide Walk, InRange, NewestPruned, Expected, StartHash, ChainHash;
    WalkBack(scanned, h, c.pruned, |h|);
    RangeIsSlice(t.rows, 0, None);
  }

  lemma ExpectedIsLast(rows: seq<Row>, start: Option<Hash>)
    ensures rows != [] && rows[|rows| - 1].hash.Some? ==> Expected(rows, start) == rows[|rows| - 1].hash
    ensures rows == [] ==> Expected(rows, start) == start
  {
  }

  /** Conversely, the same contents behind the checkpoint pass. */
  lemma SameContentsPass(db: Db, h: seq<Body>, t: Db)
    requires Honest(db, h) && t.head == db.head && Ordered(t.rows) && SameContents(t.rows, db.rows)
    requires (t.rows != [] ==> t.rows[0].id > 0) && FirstRowFailures(t.rows, db.head.value) == []
    ensures VerifyAll(t) == []
  {
    hide Walk, InRange, NewestPruned, Expected, StartHash, ChainHash, CheckCheckpoint, FirstRowFailures, Links, HeadFailures;
    var c := db.head.value;
    AllPositive(t.rows);
    AllInRange(t.rows, 0);
    StartHashHonest(db, h);
    HonestParts(db, h);
    CheckpointSame(c, t.rows, db.rows, h);
    LinksOfSame(t.rows, db.rows, h, c.pruned);
    WalkLinked(t.rows, h, c.pruned);
    HeadAgrees(t, c, h);
  }

  lemma HonestParts(db: Db, h: seq<Body>)
    requires Honest(db, h)
    ensures db.head.Some? && var c := db.head.value;
      0 <= c.pruned <= |h| && Links(db.rows, h, c.pruned) && CheckpointHonest(c, db.rows, h) &&
      c.pruned + |db.rows| == |h| == c.count && c.lastHash == ChainHash(h, |h|)
  {
    hide Links, ChainHash, CheckpointHonest;
  }

  lemma HeadAgrees(t: Db, c: Head, h: seq<Body>)
    requires t.head == Some(c) && 0 <= c.pruned && Links(t.rows, h, c.pruned)
    requires c.pruned + |t.rows| == |h| == c.count && c.lastHash == ChainHash(h, |h|) && StartHash(c) == ChainHash(h, c.pruned)
    ensures HeadFailures(t.rows, t) == []
  {
    hide Links, ChainHash, StartHash;
    if t.rows != [] {
      LastHashIs(t.rows, h, c.pruned);
    }
  }

  lemma AllPositive(rows: seq<Row>)
    requires Ordered(rows) && (rows != [] ==> rows[0].id > 0)
    ensures forall i :: 0 <= i < |rows| ==> rows[i].id > 0
  {
    forall i | 0 <= i < |rows|
      ensures rows[i].id > 0
    {
      assert i > 0 ==> rows[0].id < rows[i].id;
    }
  }

  lemma LinksOfSame(a: seq<Row>, b: seq<Row>, h: seq<Body>, q: nat)
    requires SameContents(a, b) && Links(b, h, q)
    ensures Links(a, h, q)
  {
    hide ChainHash;
  }

  lemma LastHashIs(rows: seq<Row>, h: seq<Body>, q: nat)
    requires Links(rows, h, q) && rows != []
    ensures rows[|rows| - 1].hash == Some(ChainHash(h, q + |rows|))
  {
    hide ChainHash;
  }

  lemma CheckpointSame(c: Head, a: seq<Row>, b: seq<Row>, h: seq<Body>)
    requires 0 <= c.pruned <= |h| && CheckpointHonest(c, b, h) && SameContents(a, b)
    ensures CheckCheckpoint(a, c) == []
  {
    CheckpointAccepts(c, b, h);
    NewestSame(a, b);
    hide NewestPruned, ChainHash, SameContents;
  }

  /** Tamper evidence: with the chain row left as honest steps wrote it, and no matter how the
      rows were altered, a full check passes if and only if the hashed contents are unchanged
      and the first row lies behind the prune checkpoint. */
  lemma TamperEvident(db: Db, h: seq<Body>, t: Db)
    requires Honest(db, h) && t.head == db.head && Ordered(t.rows)
    ensures VerifyAll(t) == [] <==>
      SameContents(t.rows, db.rows) &&
      (t.rows != [] ==> 0 < t.rows[0].id && (db.head.value.anchorId.Some? ==> db.head.value.anchorId.value < t.rows[0].id))
  {
    if VerifyAll(t) == [] {
      PassingWalk(db, h, t);
      LinksSame(t.rows, db.rows, h, db.head.value.pruned);
      hide VerifyAll;
      if t.rows != [] {
        InRangeFrom(t.rows, 0, None);
      }
    } else if SameContents(t.rows, db.rows) && (t.rows != [] ==> t.rows[0].id > 0) && FirstRowFailures(t.rows, db.head.value) == [] {
      SameContentsPass(db, h, t);
    }
  }

  lemma LinksSame(a: seq<Row>, b: seq<Row>, h: seq<Body>, q: nat)
    requires Links(a, h, q) && Links(b, h, q) && |a| == |b|
    ensures SameContents(a, b)
  {
    hide ChainHash;
  }

  // ----- Deleting a block ------------------------------------------------------------------------------

  lemma WalkLast(rows: seq<Row>, r: Row, start: Option<Hash>)
    ensures Walk(rows + [r], start) == Walk(rows, start) + RowFailures(r, Expected(rows, start))
    ensures Expected(rows + [r], start) == if r.hash.Some? then r.hash else Expected(rows, start)
  {
    assert (rows + [r])[..|rows|] == rows;
  }

  lemma {:induction false} WalkConcat(a: seq<Row>, b: seq<Row>, start: Option<Hash>)
    ensures Walk(a + b, start) == Walk(a, start) + Walk(b, Expected(a, start))
    ensures Expected(a + b, start) == Expected(b, Expected(a, start))
  {
    hide Walk, Expected, RowFailures;
    if b == [] {
      assert a + b == a;
      WalkNone(Expected(a, start));
    } else {
      var n := |b| - 1;
      WalkConcat(a, b[..n], start);
      assert a + b == (a + b[..n]) + [b[n]];
      assert b == b[..n] + [b[n]];
      WalkLast(a + b[..n], b[n], start);
      WalkLast(b[..n], b[n], Expected(a, start));
    }
  }

  lemma FirstLink(rows: seq<Row>, h: seq<Body>, q: nat)
    requires Links(rows, h, q) && rows != []
    ensures q + 1 <= |h| && rows[0].prev == Some(ChainHash(h, q)) && rows[0].hash == Some(ChainHash(h, q + 1)) && Links(rows[1..], h, q + 1)
    ensures ComputeEntryHash(ChainHash(h, q), rows[0].body) == ChainHash(h, q + 1)
  {
    assert Digest(ChainHash(h, q), h[q]) == ChainHash(h, q + 1);
    hide ChainHash;
  }

  /** Linked rows behind the wrong predecessor: exactly the first link is reported. */
  lemma WalkWrongStart(rows: seq<Row>, h: seq<Body>, q: nat, wrong: Hash)
    requires Links(rows, h, q) && rows != [] && q <= |h| && wrong != ChainHash(h, q)
    ensures Walk(rows, Some(wrong)) == [BrokenLink(rows[0].id)]
  {
    hide Walk, Expected, ChainHash, Links;
    var r, rest := rows[0], rows[1..];
    FirstLink(rows, h, q);
    assert rows == [r] + rest;
    WalkConcat([r], rest, Some(wrong));
    FirstOnly(r, Some(wrong));
    WalkLinked(rest, h, q + 1);
  }

  lemma FirstOnly(r: Row, start: Option<Hash>)
    ensures Walk([r], start) == RowFailures(r, start)
    ensures Expected([r], start) == if r.hash.Some? then r.hash else start
  {
    assert [r][..0] == [];
    WalkNone(start);
  }

  /** The log without the rows i, ..., j - 1. */
  function Without(db: Db, i: nat, j: nat): Db
    requires i <= j <= |db.rows|
  {
    db.(rows := db.rows[..i] + db.rows[j..])
  }

  /** Deleting a block of rows from an honest log: the check reports the broken link at exactly
      the first row behind the block (or the head, when the block was the newest rows), the
      count, and nothing else, unless the newest audit:pruned entry was in the block. */
  lemma DeletionDetected(db: Db, h: seq<Body>, i: nat, j: nat)
    requires Honest(db, h) && i < j <= |db.rows|
    ensures var t := Without(db, i, j);
      VerifyAll(t) ==
        [if j < |db.rows| then BrokenLink(db.rows[j].id) else HeadMismatch(LastId(t.rows)), CountMismatch] +
        CheckCheckpoint(t.rows, db.head.value)
    ensures NewestPruned(Without(db, i, j).rows) == NewestPruned(db.rows) ==> CheckCheckpoint(Without(db, i, j).rows, db.head.value) == []
  {
    hide Walk, InRange, NewestPruned, Expected, StartHash, ChainHash, Links, CheckCheckpoint, CheckpointHonest;
    var c, t := db.head.value, Without(db, i, j);
    CheckpointOnNewest(c, t.rows, db.rows, h);
    AllInRange(t.rows, 0);
    StartHashHonest(db, h);
    WalkWithout(db.rows, h, c.pruned, i, j);
    EndWithout(db.rows, h, c.pruned, i, j);
    FirstWithout(c, db.rows, h, i, j);
  }

  lemma CheckpointOnNewest(c: Head, a: seq<Row>, b: seq<Row>, h: seq<Body>)
    requires 0 <= c.pruned <= |h| && CheckpointHonest(c, b, h)
    ensures NewestPruned(a) == NewestPruned(b) ==> CheckCheckpoint(a, c) == []
  {
    CheckpointAccepts(c, b, h);
    hide NewestPruned, ChainHash;
  }

  lemma FirstWithout(c: Head, rows: seq<Row>, h: seq<Body>, i: nat, j: nat)
    requires 0 <= c.pruned <= |h| && CheckpointHonest(c, rows, h) && i < j <= |rows|
    ensures FirstRowFailures(rows[..i] + rows[j..], c) == []
  {
    hide NewestPruned, ChainHash;
  }

  /** Two linked parts that do not fit together. */
  lemma WalkTwo(a: seq<Row>, b: seq<Row>, h: seq<Body>, q: nat, r: nat)
    requires q + |a| <= |h| && r <= |h| && ChainHash(h, q + |a|) != ChainHash(h, r)
    requires Links(a, h, q) && Links(b, h, r) && b != []
    ensures Walk(a + b, Some(ChainHash(h, q))) == [BrokenLink(b[0].id)]
  {
    hide Walk, Expected, ChainHash, Links;
    var start := Some(ChainHash(h, q));
    WalkConcat(a, b, start);
    WalkLinked(a, h, q);
    WalkWrongStart(b, h, r, ChainHash(h, q + |a|));
  }

  lemma WalkWithout(rows: seq<Row>, h: seq<Body>, q: nat, i: nat, j: nat)
    requires Links(rows, h, q) && q + |rows| == |h| && i < j <= |rows|
    ensures Walk(rows[..i] + rows[j..], Some(ChainHash(h, q))) == if j < |rows| then [BrokenLink(rows[j].id)] else []
  {
    Different(h, q + i, q + j);
    hide Walk, ChainHash, Links;
    SliceLinks(rows, h, q, 0, i);
    assert rows[0..i] == rows[..i];
    if j < |rows| {
      SliceLinks(rows, h, q, j, |rows|);
      assert rows[j..|rows|] == rows[j..];
      WalkTwo(rows[..i], rows[j..], h, q, q + j);
    } else {
      assert rows[..i] + rows[j..] == rows[..i];
      WalkLinked(rows[..i], h, q);
    }
  }

  lemma EndWithout(rows: seq<Row>, h: seq<Body>, q: nat, i: nat, j: nat)
    requires Links(rows, h, q) && q + |rows| == |h| && i < j <= |rows|
    ensures EndsAt(rows[..i] + rows[j..], Some(ChainHash(h, q)), ChainHash(h, |h|)) <==> j < |rows|
  {
    Different(h, q + i, q + j);
    hide ChainHash, Links;
    var left := rows[..i] + rows[j..];
    if j < |rows| {
      LinkedAt(rows, h, q, |rows| - 1);
      assert left[|left| - 1] == rows[|rows| - 1];
    } else if i > 0 {
      LinkedAt(rows, h, q, i - 1);
      assert left[|left| - 1] == rows[i - 1];
    }
  }

  /** The hash of the last row, or the start when there is none. */
  predicate EndsAt(rows: seq<Row>, start: Option<Hash>, end: Hash) {
    (if rows == [] then start else rows[|rows| - 1].hash) == Some(end)
  }

  lemma Different(h: seq<Body>, i: nat, j: nat)
    requires i < j <= |h|
    ensures ChainHash(h, i) != ChainHash(h, j)
  {
    if ChainHash(h, i) == ChainHash(h, j) {
      ChainHashInjective(h, i, j);
    }
  }

  /** No two rows have the same predecessor. */
  lemma NoFork(db: Db, h: seq<Body>, i: nat, j: nat)
    requires Honest(db, h) && i < j < |db.rows|
    ensures db.rows[i].prev != db.rows[j].prev && db.rows[i].id < db.rows[j].id
  {
    var p := db.head.value.pruned;
    LinkedAt(db.rows, h, p, i);
    LinkedAt(db.rows, h, p, j);
    if ChainHash(h, p + i) == ChainHash(h, p + j) {
      ChainHashInjective(h, p + i, p + j);
    }
  }

  // ----- Backfilling --------------------------------------------------------------------------------------

  /** Backfilling changes no content, no id, no unhashed column, and no row that has a hash. */
  lemma BackfillKeepsRows(db: Db)
    ensures |Backfill(db).rows| == |db.rows| && Backfill(db).nextId == db.nextId
    ensures forall k :: 0 <= k < |db.rows| ==>
      SameEntry(Backfill(db).rows[k], db.rows[k]) && (db.rows[k].hash.Some? ==> Backfill(db).rows[k] == db.rows[k])
  {
    hide ChainUp, BackfillStart, EndOf, SeededHead, ChainedCount;
    var m := ChainedPrefix(db.rows);
    var rest, added := db.rows[m..], ChainUp(db.rows[m..], BackfillStart(db));
    ChainUpKeeps(rest, BackfillStart(db));
    assert Backfill(db).rows == db.rows[..m] + added;
    NoHashFrom(db.rows, m);
    hide Backfill, ChainedPrefix;
    forall k | 0 <= k < |db.rows|
      ensures SameEntry(Backfill(db).rows[k], db.rows[k]) && (db.rows[k].hash.Some? ==> Backfill(db).rows[k] == db.rows[k])
    {
      if k >= m {
        assert db.rows[k] == rest[k - m] && Backfill(db).rows[k] == added[k - m];
      }
    }
  }

  lemma {:induction false} WalkChainUp(rows: seq<Row>, start: Hash)
    ensures Walk(ChainUp(rows, start), Some(start)) == []
    ensures Expected(ChainUp(rows, start), Some(start)) == Some(EndOf(ChainUp(rows, start), start))
  {
    if rows == [] {
      WalkNone(Some(start));
    } else {
      var n := |rows| - 1;
      WalkChainUp(rows[..n], start);
      assert rows == rows[..n] + [rows[n]];
      ChainUpLast(rows[..n], rows[n], start);
      var done := ChainUp(rows[..n], start);
      hide Walk, Expected, ChainUp, EndOf;
      WalkLast(done, Linked(rows[n], EndOf(done, start)), Some(start));
    }
  }

  lemma {:induction false} CountIsLength(rows: seq<Row>, start: Option<Hash>)
    requires Walk(rows, start) == []
    ensures ChainedCount(rows) == |rows|
  {
    if rows != [] {
      CountIsLength(rows[..|rows| - 1], start);
    }
  }

  lemma {:induction false} CountNone(rows: seq<Row>, m: nat)
    requires m <= |rows| && forall i :: m <= i < |rows| ==> rows[i].hash.None?
    ensures ChainedCount(rows) == ChainedCount(rows[..m])
  {
    if m < |rows| {
      CountNone(rows[..|rows| - 1], m);
      assert rows[..|rows| - 1][..m] == rows[..m];
    } else {
      assert rows[..m] == rows;
    }
  }

  lemma {:induction false} NewestByContent(a: seq<Row>, b: seq<Row>)
    requires |a| == |b| && forall k :: 0 <= k < |a| ==> a[k].body == b[k].body && a[k].id == b[k].id
    ensures NewestPruned(a).Some? == NewestPruned(b).Some?
    ensures NewestPruned(a).Some? ==> NewestPruned(a).value.body == NewestPruned(b).value.body && NewestPruned(a).value.id == NewestPruned(b).value.id
  {
    if a != [] {
      NewestByContent(a[..|a| - 1], b[..|b| - 1]);
    }
  }

  /** The walk over a backfilled log fails exactly where the walk over the old chained part does. */
  lemma WalkBackfilled(db: Db)
    ensures var start := Some(StartHash(SeededHead(db)));
      Walk(Backfill(db).rows, start) == Walk(db.rows[..ChainedPrefix(db.rows)], start) &&
      Expected(Backfill(db).rows, start) == Some(Backfill(db).head.value.lastHash)
  {
    var m, s := ChainedPrefix(db.rows), BackfillStart(db);
    var start := Some(StartHash(SeededHead(db)));
    ExpectedIsLast(db.rows[..m], start);
    assert Expected(db.rows[..m], start) == Some(s);
    hide Walk, Expected, ChainUp, EndOf, BackfillStart, SeededHead, ChainedCount, ChainedPrefix;
    WalkConcat(db.rows[..m], ChainUp(db.rows[m..], s), start);
    WalkChainUp(db.rows[m..], s);
  }

  /** After a backfill a full check passes if and only if the rows that were already chained form
      a valid chain with no hole, and the checkpoint was in order. */
  lemma BackfillVerifies(db: Db)
    requires KeysOk(db)
    ensures var h := SeededHead(db);
      VerifyAll(Backfill(db)) == [] <==>
        Walk(db.rows[..ChainedPrefix(db.rows)], Some(StartHash(h))) == [] && FirstRowFailures(db.rows, h) == [] && CheckCheckpoint(db.rows, h) == []
  {
    var h, b := SeededHead(db), Backfill(db);
    var c := b.head.value;
    BackfillKeepsRows(db);
    WalkBackfilled(db);
    BackfillHead(db);
    hide Walk, InRange, NewestPruned, Expected, Backfill, SeededHead, ChainedPrefix, VerifyAll, EndsAt, FirstRowFailures,
         CheckCheckpoint, HeadFailures;
    AllInRange(b.rows, 0);
    CheckpointByContent(h, c, b.rows, db.rows);
    ExpectedIsHead(b.rows, c);
    VerifyParts(b, c);
    if Walk(b.rows, Some(StartHash(c))) == [] {
      EndIsHead(b, c);
    }
  }

  /** A full check passes exactly when each of its four parts does. */
  lemma VerifyParts(t: Db, c: Head)
    requires t.head == Some(c) && InRange(t.rows, 0, None) == t.rows
    ensures VerifyAll(t) == [] <==>
      FirstRowFailures(t.rows, c) == [] && Walk(t.rows, Some(StartHash(c))) == [] && HeadFailures(t.rows, t) == [] &&
      CheckCheckpoint(t.rows, c) == []
  {
    hide FirstRowFailures, Walk, HeadFailures, CheckCheckpoint, InRange;
  }

  lemma EndIsHead(t: Db, c: Head)
    requires t.head == Some(c) && EndsAt(t.rows, Some(StartHash(c)), c.lastHash) && c.count - c.pruned == |t.rows|
    ensures HeadFailures(t.rows, t) == []
  {
  }

  lemma ExpectedIsHead(rows: seq<Row>, c: Head)
    requires Expected(rows, Some(StartHash(c))) == Some(c.lastHash)
    requires rows != [] ==> rows[|rows| - 1].hash.Some?
    ensures EndsAt(rows, Some(StartHash(c)), c.lastHash)
  {
    ExpectedIsLast(rows, Some(StartHash(c)));
  }

  lemma CheckpointByContent(h: Head, c: Head, a: seq<Row>, b: seq<Row>)
    requires c == h.(lastHash := c.lastHash, count := c.count)
    requires |a| == |b| && forall k :: 0 <= k < |a| ==> a[k].body == b[k].body && a[k].id == b[k].id
    ensures FirstRowFailures(a, c) == FirstRowFailures(b, h) && CheckCheckpoint(a, c) == CheckCheckpoint(b, h)
  {
    NewestByContent(a, b);
    hide NewestPruned;
  }

  /** The head after a backfill: its count is right when the chained part has no hole. */
  lemma BackfillHead(db: Db)
    ensures var b, h := Backfill(db), SeededHead(db); var c := b.head.value;
      c == h.(lastHash := c.lastHash, count := c.count) &&
      (Walk(db.rows[..ChainedPrefix(db.rows)], Some(StartHash(h))) == [] ==> c.count - c.pruned == |b.rows|) &&
      (b.rows != [] ==> b.rows[|b.rows| - 1].hash.Some?)
  {
    var m, h := ChainedPrefix(db.rows), SeededHead(db);
    CountNone(db.rows, m);
    if Walk(db.rows[..m], Some(StartHash(h))) == [] {
      CountIsLength(db.rows[..m], Some(StartHash(h)));
    }
    ChainUpKeeps(db.rows[m..], BackfillStart(db));
    hide Walk, ChainUp, BackfillStart, EndOf, ChainedCount;
  }

  // ----- A backfilled log is an honest one ------------------------------------------------------------

  function Contents(rows: seq<Row>): seq<Body> {
    seq(|rows|, i requires 0 <= i < |rows| => rows[i].body)
  }

  lemma {:induction false} ChainUpLinks(rows: seq<Row>, h: seq<Body>, q: nat)
    requires q + |rows| <= |h| && forall k :: 0 <= k < |rows| ==> rows[k].body == h[q + k]
    ensures Links(ChainUp(rows, ChainHash(h, q)), h, q)
    ensures EndOf(ChainUp(rows, ChainHash(h, q)), ChainHash(h, q)) == ChainHash(h, q + |rows|)
  {
    if rows != [] {
      var n := |rows| - 1;
      ChainUpLinks(rows[..n], h, q);
      assert rows == rows[..n] + [rows[n]];
      ChainUpLast(rows[..n], rows[n], ChainHash(h, q));
      var done := ChainUp(rows[..n], ChainHash(h, q));
      assert ChainHash(h, q + |rows|) == Digest(ChainHash(h, q + n), h[q + n]);
      hide ChainUp, ChainHash, EndOf;
      assert Links(done + [Linked(rows[n], ChainHash(h, q + n))], h, q);
    }
  }

  /** A walk from the genesis value without failures went over the contents of the rows. */
  lemma {:induction false} WalkFromGenesis(rows: seq<Row>)
    requires Walk(rows, Some(Genesis)) == []
    ensures Links(rows, Contents(rows), 0)
    ensures Expected(rows, Some(Genesis)) == Some(ChainHash(Contents(rows), |rows|))
  {
    hide *;
    var start := Some(Genesis);
    if rows == [] {
      WalkNone(start);
      GenesisOf(rows);
    } else {
      var n, r := |rows| - 1, rows[|rows| - 1];
      var h := Contents(rows[..n]);
      WalkEnds(rows, start);
      WalkFromGenesis(rows[..n]);
      ContentsSize(rows[..n]);
      CleanRow(r, ChainHash(h, n));
      LinksAppend(rows[..n], h, 0, r.body, r);
      assert rows[..n] + [r] == rows;
      ContentsAppend(rows[..n], r);
      LastHashIs(rows, h + [r.body], 0);
    }
  }

  lemma GenesisOf(rows: seq<Row>)
    ensures ChainHash(Contents(rows), 0) == Genesis && Links([], Contents(rows), 0)
  {
  }

  lemma CleanRow(r: Row, hash: Hash)
    requires RowFailures(r, Some(hash)) == []
    ensures r.prev == Some(hash) && r.hash == Some(Digest(hash, r.body))
  {
  }

  lemma ContentsAppend(rows: seq<Row>, r: Row)
    ensures Contents(rows + [r]) == Contents(rows) + [r.body]
  {
  }

  lemma ContentsSame(a: seq<Row>, b: seq<Row>)
    requires |a| == |b| && forall k :: 0 <= k < |a| ==> SameEntry(a[k], b[k])
    ensures Contents(a) == Contents(b)
  {
  }

  /** The chain row has no checkpoint, or there is no chain row yet. */
  predicate NeverPruned(db: Db) {
    KeysOk(db) && (db.head.Some? ==> db.head.value.pruned == 0 && db.head.value.anchorId.None? && db.head.value.anchorHash.None?)
  }

  /** On a log that was never pruned, a backfill that a full check accepts has made it honest, with
      the contents of its rows as history; and only such a one. */
  lemma BackfilledIsHonest(db: Db)
    requires NeverPruned(db)
    ensures VerifyAll(Backfill(db)) == [] <==> Honest(Backfill(db), Contents(db.rows))
  {
    hide *;
    if VerifyAll(Backfill(db)) == [] {
      PassingIsHonest(db);
    } else if Honest(Backfill(db), Contents(db.rows)) {
      VerifyAcceptsAll(Backfill(db), Contents(db.rows));
    }
  }

  /** So a backfill makes honest every log of rows from before the chain. */
  lemma UnchainedIsHonest(db: Db)
    requires NeverPruned(db) && NewestPruned(db.rows).None? && forall i :: 0 <= i < |db.rows| ==> db.rows[i].hash.None?
    ensures Honest(Backfill(db), Contents(db.rows))
  {
    var h, m := SeededHead(db), ChainedPrefix(db.rows);
    WalkNone(Some(StartHash(h)));
    assert m == 0 && db.rows[..m] == [];
    hide Walk, NewestPruned, Honest, VerifyAll, Backfill, ChainedPrefix, SeededHead, KeysOk;
    NeverPrunedKeys(db);
    BackfillVerifies(db);
    BackfilledIsHonest(db);
  }

  lemma PassingIsHonest(db: Db)
    requires NeverPruned(db) && VerifyAll(Backfill(db)) == []
    ensures Honest(Backfill(db), Contents(db.rows))
  {
    hide *;
    var b, h := Backfill(db), Contents(db.rows);
    PassingBackfill(db);
    NeverPrunedKeys(db);
    BackfillKeys(db);
    BackfillKeepsRows(db);
    WalkFromGenesis(b.rows);
    ContentsSame(b.rows, db.rows);
    ContentsSize(b.rows);
    NothingPruned(b.rows, b.head.value, h);
    HonestFrom(b, h, b.head.value);
  }

  lemma NeverPrunedKeys(db: Db)
    requires NeverPruned(db)
    ensures KeysOk(db)
  {
  }

  lemma PassingBackfill(db: Db)
    requires NeverPruned(db) && VerifyAll(Backfill(db)) == []
    ensures var b := Backfill(db); var c := b.head.value;
      b.head.Some? && c.pruned == 0 && c.anchorId.None? && c.anchorHash.None? && c.count == |b.rows| &&
      Walk(b.rows, Some(Genesis)) == [] && Expected(b.rows, Some(Genesis)) == Some(c.lastHash) && CheckCheckpoint(b.rows, c) == []
  {
    BackfilledHead(db);
    var b := Backfill(db);
    var c := b.head.value;
    NeverPrunedKeys(db);
    BackfillKeepsRows(db);
    hide *;
    BackfillKeys(db);
    KeysInRange(b);
    VerifyParts(b, c);
    WalkBackfilled(db);
    BackfillCount(db);
  }

  lemma BackfilledHead(db: Db)
    requires NeverPruned(db)
    ensures var c := Backfill(db).head; c.Some? && c.value.pruned == 0 && c.value.anchorId.None? && c.value.anchorHash.None?
    ensures StartHash(SeededHead(db)) == Genesis && StartHash(Backfill(db).head.value) == Genesis
  {
    hide ChainUp, BackfillStart, ChainedCount, ChainedPrefix, EndOf, KeysOk;
  }

  lemma KeysInRange(b: Db)
    requires KeysOk(b)
    ensures InRange(b.rows, 0, None) == b.rows
  {
    AllInRange(b.rows, 0);
  }

  lemma BackfillKeys(db: Db)
    requires KeysOk(db)
    ensures KeysOk(Backfill(db))
  {
    BackfillKeepsRows(db);
    hide Backfill;
    var b := Backfill(db);
    forall i | 0 <= i < |b.rows|
      ensures b.rows[i].id == db.rows[i].id
    {
      assert SameEntry(b.rows[i], db.rows[i]);
    }
  }

  /** Honesty from its parts. */
  lemma HonestFrom(b: Db, h: seq<Body>, c: Head)
    requires KeysOk(b) && b.head == Some(c) && 0 <= c.pruned && c.count == |h| == c.pruned + |b.rows|
    requires c.lastHash == ChainHash(h, |h|) && Links(b.rows, h, c.pruned) && CheckpointHonest(c, b.rows, h)
    requires c.anchorId.Some? ==> c.anchorId.value < b.nextId
    ensures Honest(b, h)
  {
    hide KeysOk, Links, ChainHash, CheckpointHonest;
  }

  lemma NothingPruned(rows: seq<Row>, c: Head, h: seq<Body>)
    requires CheckCheckpoint(rows, c) == [] && c.pruned == 0 && c.anchorId.None? && c.anchorHash.None?
    ensures CheckpointHonest(c, rows, h)
  {
    hide NewestPruned, ChainHash;
  }

  lemma BackfillCount(db: Db)
    requires Walk(Backfill(db).rows, Some(StartHash(SeededHead(db)))) == []
    ensures var c := Backfill(db).head.value; c.count - c.pruned == |db.rows|
  {
    WalkBackfilled(db);
    BackfillHead(db);
  }

  /** In general a backfill makes honest any log whose chained rows continue an honest history h and
      whose checkpoint tells of that history. */
  lemma BackfillKeepsHonest(db: Db, h: seq<Body>)
    requires var m, c := ChainedPrefix(db.rows), SeededHead(db);
      KeysOk(db) && 0 <= c.pruned && |h| == c.pruned + m && Links(db.rows[..m], h, c.pruned) &&
      StartHash(c) == ChainHash(h, c.pruned) && (c.anchorId.Some? ==> c.anchorId.value < db.nextId) &&
      CheckpointHonest(c, db.rows, h)
    ensures var m := ChainedPrefix(db.rows); Honest(Backfill(db), h + Contents(db.rows[m..]))
  {
    hide *;
    var m, c, b := ChainedPrefix(db.rows), SeededHead(db), Backfill(db);
    var more := Contents(db.rows[m..]);
    BackfillParts(db);
    BackfillLinks(db, h);
    BackfillKeys(db);
    BackfillKeepsRows(db);
    SameRowsCheckpoint(c, b.head.value, b.rows, db.rows, h, more);
    ContentsSize(db.rows[m..]);
    HonestFrom(b, h + more, b.head.value);
  }

  lemma ContentsSize(rows: seq<Row>)
    ensures |Contents(rows)| == |rows| && forall i :: 0 <= i < |rows| ==> Contents(rows)[i] == rows[i].body
  {
  }

  /** What a backfill leaves of the chain row. */
  lemma BackfillParts(db: Db)
    ensures var b, h := Backfill(db), SeededHead(db); var c := b.head.value;
      b.head.Some? && c == h.(lastHash := c.lastHash, count := c.count)
  {
    hide SeededHead, ChainUp, EndOf, BackfillStart, ChainedPrefix, ChainedCount;
  }

  lemma BackfillLinks(db: Db, h: seq<Body>)
    requires var m, c := ChainedPrefix(db.rows), SeededHead(db);
      0 <= c.pruned && |h| == c.pruned + m && Links(db.rows[..m], h, c.pruned) && StartHash(c) == ChainHash(h, c.pruned)
    ensures var m, c := ChainedPrefix(db.rows), SeededHead(db); var g, b := h + Contents(db.rows[m..]), Backfill(db);
      b.head.Some? && Links(b.rows, g, c.pruned) && b.head.value.lastHash == ChainHash(g, |g|) && b.head.value.count == |g|
  {
    hide ChainUp, EndOf, ChainHash, Links, ChainedCount, BackfillStart, StartHash, ChainedPrefix, SeededHead;
    var m, c := ChainedPrefix(db.rows), SeededHead(db);
    var rest, more := db.rows[m..], Contents(db.rows[m..]);
    ChainHashPrefix(h, more, |h|);
    StartOfBackfill(db, h);
    ChainUpLinks(rest, h + more, |h|);
    LinkedCount(db.rows[..m], h, c.pruned);
    NoHashFrom(db.rows, m);
    CountNone(db.rows, m);
    LinksJoin(db.rows[..m], ChainUp(rest, ChainHash(h, |h|)), h, more, c.pruned);
  }

  lemma SameRowsCheckpoint(c: Head, d: Head, b: seq<Row>, rows: seq<Row>, h: seq<Body>, more: seq<Body>)
    requires 0 <= c.pruned <= |h| && CheckpointHonest(c, rows, h) && d == c.(lastHash := d.lastHash, count := d.count)
    requires |b| == |rows| && forall k :: 0 <= k < |rows| ==> SameEntry(b[k], rows[k])
    ensures CheckpointHonest(d, b, h + more)
  {
    NewestByContent(b, rows);
    ChainHashPrefix(h, more, c.pruned);
    hide NewestPruned, ChainHash;
  }

  lemma StartOfBackfill(db: Db, h: seq<Body>)
    requires var m, c := ChainedPrefix(db.rows), SeededHead(db);
      0 <= c.pruned && |h| == c.pruned + m && Links(db.rows[..m], h, c.pruned) && StartHash(c) == ChainHash(h, c.pruned)
    ensures BackfillStart(db) == ChainHash(h, |h|)
  {
    var m, c := ChainedPrefix(db.rows), SeededHead(db);
    hide ChainHash;
    if m > 0 {
      LinkedAt(db.rows[..m], h, c.pruned, m - 1);
    }
  }

  lemma {:induction false} LinkedCount(rows: seq<Row>, h: seq<Body>, q: nat)
    requires Links(rows, h, q)
    ensures ChainedCount(rows) == |rows|
  {
    hide ChainHash;
    if rows != [] {
      LinkedCount(rows[..|rows| - 1], h, q);
    }
  }

  lemma LinksJoin(a: seq<Row>, b: seq<Row>, h: seq<Body>, more: seq<Body>, q: nat)
    requires Links(a, h, q) && q + |a| == |h| && Links(b, h + more, |h|)
    ensures Links(a + b, h + more, q)
  {
    hide ChainHash;
    forall k | 0 <= k < |a + b|
      ensures var g, r := h + more, (a + b)[k];
        q + k + 1 <= |g| && r.prev == Some(ChainHash(g, q + k)) && r.hash == Some(ChainHash(g, q + k + 1)) && r.body == g[q + k]
    {
      if k < |a| {
        LinkedAt(a, h, q, k);
        ChainHashPrefix(h, more, q + k);
        ChainHashPrefix(h, more, q + k + 1);
      } else {
        LinkedAt(b, h + more, |h|, k - |a|);
      }
    }
  }
}
