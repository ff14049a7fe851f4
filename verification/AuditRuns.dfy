/** Transactions that append to and prune the audit log, interleaved statement by statement,
    with the chain row's lock, uncommitted changes, snapshots and rollbacks. */
module AuditRuns {
  import opened Wrappers
  import opened AuditLog
  import opened AuditTamper

  type Tx = nat

  /** How far the transaction that holds the chain row's lock has come. */
  datatype Pc =
    | Idle                                                  // nobody holds the lock
    | Fresh                                                 // the lock was the first statement
    | Ready                                                 // between two calls
    | HeadRead(prev: Hash, body: Body, scope: string)       // appendInTx has read the head
    | RowIn(hash: Hash)                                     // the row is in, the head is not advanced
    | Planned(boundary: int, last: Row, cutoff: int, now: int, user: Option<string>)
    | Deleted(n: nat, cutoff: int, now: int, user: Option<string>, lastId: int, lastHash: Option<Hash>)
    | Noted(note: Body)                                     // the checkpoint is recorded

  /** The committed tables, the tables as the lock holder sees them, and the snapshots that
      ordinary reads have fixed. */
  datatype Sys = Sys(committed: Db, owner: Option<Tx>, view: Db, pc: Pc, snapshots: map<Tx, Db>)

  datatype Step =
    | Read(t: Tx)                                           // an ordinary read
    | Lock(t: Tx)                                           // UPDATE of the chain row
    | ReadHead(t: Tx, body: Body, scope: string)            // SELECT ... FOR UPDATE
    | InsertRow(t: Tx)
    | AdvanceHead(t: Tx)
    | PlanPrune(t: Tx, cutoff: int, now: int, user: Option<string>)
    | DeleteBlock(t: Tx)
    | RecordCheckpoint(t: Tx)
    | ReadHeadForNote(t: Tx)
    | Commit(t: Tx)
    | Rollback(t: Tx)

  /** What t's ordinary reads see. */
  function SnapshotOf(s: Sys, t: Tx): Db {
    if t in s.snapshots then s.snapshots[t] else s.committed
  }

  predicate Enabled(s: Sys, step: Step) {
    match step
    case Read(t) => true
    case Lock(t) => (s.owner.None? && s.committed.head.Some?) || (s.owner == Some(t) && (s.pc.Fresh? || s.pc.Ready?))
    case ReadHead(t, body, scope) =>
      s.owner == Some(t) && (s.pc.Fresh? || s.pc.Ready?) && s.view.head.Some? && body.action != "" && body.action != PRUNED_ACTION
    case InsertRow(t) => s.owner == Some(t) && s.pc.HeadRead?
    case AdvanceHead(t) => s.owner == Some(t) && s.pc.RowIn? && s.view.head.Some?
    case PlanPrune(t, _, _, _) => s.owner == Some(t) && s.pc.Fresh? && t !in s.snapshots
    case DeleteBlock(t) => s.owner == Some(t) && s.pc.Planned?
    case RecordCheckpoint(t) => s.owner == Some(t) && s.pc.Deleted? && s.view.head.Some?
    case ReadHeadForNote(t) => s.owner == Some(t) && s.pc.Noted? && s.view.head.Some?
    case Commit(t) => s.owner == Some(t) && (s.pc.Fresh? || s.pc.Ready?)
    case Rollback(t) => s.owner == Some(t)
  }

  /** One statement. With locking false, the head is read by an ordinary read instead of
      SELECT ... FOR UPDATE. */
  function Next(s: Sys, step: Step, locking: bool): Sys
    requires Enabled(s, step)
  {
    match step
    case Read(t) => s.(snapshots := s.snapshots[t := SnapshotOf(s, t)])
    case Lock(t) => if s.owner == Some(t) then s else s.(owner := Some(t), view := s.committed, pc := Fresh)
    case ReadHead(t, body, scope) =>
      var source := if locking || SnapshotOf(s, t).head.None? then s.view.head.value else SnapshotOf(s, t).head.value;
      s.(pc := HeadRead(source.lastHash, body, scope))
    case InsertRow(t) =>
      var hash := ComputeEntryHash(s.pc.prev, s.pc.body);
      var row := Row(s.view.nextId, s.pc.body, s.pc.scope, Some(s.pc.prev), Some(hash));
      s.(view := s.view.(rows := s.view.rows + [row], nextId := s.view.nextId + 1), pc := RowIn(hash))
    case AdvanceHead(t) => s.(view := Advanced(s.view, s.pc.hash), pc := Ready)
    case PlanPrune(t, cutoff, now, user) =>
      var boundary := BoundaryId(s.committed.rows, cutoff);
      var last := if boundary.Some? then Before(s.committed.rows, boundary.value) else None;
      s.(snapshots := s.snapshots[t := s.committed],
         pc := if last.None? then Ready else Planned(boundary.value, last.value, cutoff, now, user))
    case DeleteBlock(t) =>
      var kept := FromId(s.view.rows, s.pc.boundary);
      FromIdShorter(s.view.rows, s.pc.boundary);
      s.(view := s.view.(rows := kept),
         pc := Deleted(|s.view.rows| - |kept|, s.pc.cutoff, s.pc.now, s.pc.user, s.pc.last.id, s.pc.last.hash))
    case RecordCheckpoint(t) =>
      var h, p := s.view.head.value, s.pc;
      var h' := h.(anchorId := Some(p.lastId), anchorHash := p.lastHash, pruned := h.pruned + p.n);
      s.(view := s.view.(head := Some(h')), pc := Noted(PruneBody(p.user, p.now, p.cutoff, p.n, p.lastId, p.lastHash, h'.pruned)))
    case ReadHeadForNote(t) => s.(pc := HeadRead(s.view.head.value.lastHash, s.pc.note, ""))
    case Commit(t) => Released(s, t, s.view)
    case Rollback(t) => Released(s, t, s.committed.(nextId := s.view.nextId))
  }

  /** The head after a row with the given hash. */
  function Advanced(db: Db, hash: Hash): Db
    requires db.head.Some?
  {
    db.(head := Some(db.head.value.(lastHash := hash, count := db.head.value.count + 1)))
  }

  /** The transaction is over; AUTO_INCREMENT does not go back. */
  function Released(s: Sys, t: Tx, tables: Db): Sys {
    Sys(tables, None, tables, Idle, s.snapshots - {t})
  }

  /** Before any transaction, with the tables as they are at boot. */
  function Start(db: Db): Sys {
    Sys(db, None, db, Idle, map[])
  }

  /** An empty log. */
  function Init(nextId: int): Sys {
    Start(Db([], Some(Head(Genesis, 0, None, None, 0)), nextId))
  }

  predicate IsRun(s: Sys, steps: seq<Step>, locking: bool)
    decreases |steps|
  {
    steps == [] || (Enabled(s, steps[0]) && IsRun(Next(s, steps[0], locking), steps[1..], locking))
  }

  function After(s: Sys, steps: seq<Step>, locking: bool): Sys
    requires IsRun(s, steps, locking)
    decreases |steps|
  {
    if steps == [] then s else After(Next(s, steps[0], locking), steps[1..], locking)
  }

  // ----- The invariant ------------------------------------------------------------------------------

  /** The honest log from which the lock holder has dropped a block of n rows. */
  ghost predicate DroppedFrom(view: Db, n: nat, base: Db, g: seq<Body>) {
    Honest(base, g) && 0 < n <= |base.rows| && view == base.(rows := base.rows[n..])
  }

  ghost predicate NotedFrom(view: Db, note: Body, base: Db, n: nat, g: seq<Body>) {
    Honest(base, g) && 0 < n <= |base.rows| && view == DropBlock(base, n) &&
    note.action == PRUNED_ACTION && NoteAgrees(note.details, view.head.value)
  }

  /** The rows below the boundary are the first n, and last is the last of them. */
  predicate CutsOff(view: Db, boundary: int, last: Row, n: nat) {
    0 < n <= |view.rows| && FromId(view.rows, boundary) == view.rows[n..] && last == view.rows[n - 1]
  }

  /** What the lock holder's view is, g being the history it starts from. */
  ghost predicate ViewOk(s: Sys, g: seq<Body>) {
    match s.pc
    case Idle => s.owner.None?
    case Fresh => s.view == s.committed && Honest(s.view, g)
    case Ready => Honest(s.view, g)
    case HeadRead(prev, body, scope) =>
      s.view.head.Some? && prev == s.view.head.value.lastHash &&
      ((Honest(s.view, g) && body.action != PRUNED_ACTION) || exists base, n :: NotedFrom(s.view, body, base, n, g))
    case RowIn(hash) => s.view.head.Some? && exists body :: Honest(Advanced(s.view, hash), g + [body])
    case Planned(boundary, last, _, _, _) => s.view == s.committed && Honest(s.view, g) && exists n :: CutsOff(s.view, boundary, last, n)
    case Deleted(n, _, _, _, lastId, lastHash) =>
      exists base :: DroppedFrom(s.view, n, base, g) && lastId == base.rows[n - 1].id && lastHash == base.rows[n - 1].hash
    case Noted(note) => exists base, n :: NotedFrom(s.view, note, base, n, g)
  }

  /** The committed log is honest with history h, and the view extends h. */
  ghost predicate Inv(s: Sys, h: seq<Body>, g: seq<Body>) {
    Honest(s.committed, h) && h <= g && ViewOk(s, g) && (s.owner.None? <==> s.pc.Idle?) &&
    s.committed.nextId <= s.view.nextId
  }

  lemma LaterIds(db: Db, h: seq<Body>, nextId: int)
    requires Honest(db, h) && db.nextId <= nextId
    ensures Honest(db.(nextId := nextId), h)
  {
    hide ChainHash, NewestPruned, NoteAgrees, Links;
  }

  lemma InsertKeeps(s: Sys, h: seq<Body>, g: seq<Body>, t: Tx)
    requires Inv(s, h, g) && Enabled(s, InsertRow(t))
    ensures Inv(Next(s, InsertRow(t), true), h, g)
  {
    hide Honest, ChainHash, NewestPruned, NoteAgrees, DropBlock;
    var prev, body, scope := s.pc.prev, s.pc.body, s.pc.scope;
    var s' := Next(s, InsertRow(t), true);
    assert Append(s.view, body, scope) == Some(Advanced(s'.view, s'.pc.hash));
    if Honest(s.view, g) && body.action != PRUNED_ACTION {
      AppendKeeps(s.view, g, body, scope);
    } else {
      var base, n :| NotedFrom(s.view, body, base, n, g);
      PruneStep(base, g, n, body, scope);
    }
  }

  lemma DeleteKeeps(s: Sys, h: seq<Body>, g: seq<Body>, t: Tx)
    requires Inv(s, h, g) && Enabled(s, DeleteBlock(t))
    ensures Inv(Next(s, DeleteBlock(t), true), h, g)
  {
    hide Honest, FromId;
    var n: nat :| CutsOff(s.view, s.pc.boundary, s.pc.last, n);
    assert DroppedFrom(s.view.(rows := s.view.rows[n..]), n, s.view, g);
  }

  lemma PlanKeeps(s: Sys, h: seq<Body>, g: seq<Body>, t: Tx, cutoff: int, now: int, user: Option<string>)
    requires Inv(s, h, g) && Enabled(s, PlanPrune(t, cutoff, now, user))
    ensures Inv(Next(s, PlanPrune(t, cutoff, now, user), true), h, g)
  {
    HonestOrdered(s.committed, h);
    BoundaryIsPrefix(s.committed.rows, cutoff);
    hide Honest, FromId, BoundaryId, Before, OldPrefix;
    var n := OldPrefix(s.committed.rows, cutoff);
    var s' := Next(s, PlanPrune(t, cutoff, now, user), true);
    if s'.pc.Planned? {
      assert CutsOff(s.view, s'.pc.boundary, s'.pc.last, n);
    }
  }

  lemma RecordKeeps(s: Sys, h: seq<Body>, g: seq<Body>, t: Tx)
    requires Inv(s, h, g) && Enabled(s, RecordCheckpoint(t))
    ensures Inv(Next(s, RecordCheckpoint(t), true), h, g)
  {
    hide Honest;
    var base :| DroppedFrom(s.view, s.pc.n, base, g) && s.pc.lastId == base.rows[s.pc.n - 1].id && s.pc.lastHash == base.rows[s.pc.n - 1].hash;
    var s' := Next(s, RecordCheckpoint(t), true);
    assert NotedFrom(s'.view, s'.pc.note, base, s.pc.n, g);
  }

  /** Every statement keeps the invariant, and the committed history only ever grows at its end. */
  lemma StepKeeps(s: Sys, h: seq<Body>, g: seq<Body>, step: Step) returns (h': seq<Body>, g': seq<Body>)
    requires Inv(s, h, g) && Enabled(s, step)
    ensures Inv(Next(s, step, true), h', g') && h <= h'
  {
    hide Honest, NotedFrom, DroppedFrom, CutsOff, BoundaryId, Before, FromId;
    h', g' := h, g;
    match step
    case Read(t) =>
    case Lock(t) =>
      if s.owner.None? {
        g' := h;
      }
    case ReadHead(t, body, scope) =>
      if s.pc.Fresh? {
        assert Honest(s.view, g);
      }
    case InsertRow(t) => InsertKeeps(s, h, g, t);
    case AdvanceHead(t) =>
      var body :| Honest(Advanced(s.view, s.pc.hash), g + [body]);
      g' := g + [body];
    case PlanPrune(t, cutoff, now, user) => PlanKeeps(s, h, g, t, cutoff, now, user);
    case DeleteBlock(t) => DeleteKeeps(s, h, g, t);
    case RecordCheckpoint(t) => RecordKeeps(s, h, g, t);
    case ReadHeadForNote(t) =>
    case Commit(t) => h' := g;
    case Rollback(t) =>
      LaterIds(s.committed, h, s.view.nextId);
      g' := h;
  }

  lemma {:induction false} RunKeeps(s: Sys, h: seq<Body>, g: seq<Body>, steps: seq<Step>) returns (h': seq<Body>, g': seq<Body>)
    requires Inv(s, h, g) && IsRun(s, steps, true)
    ensures Inv(After(s, steps, true), h', g') && h <= h'
    decreases |steps|
  {
    hide Inv, Enabled, Next;
    if steps == [] {
      h', g' := h, g;
    } else {
      var h1, g1 := StepKeeps(s, h, g, steps[0]);
      h', g' := RunKeeps(Next(s, steps[0], true), h1, g1, steps[1..]);
    }
  }

  lemma StartInv(db: Db, h: seq<Body>)
    requires Honest(db, h)
    ensures Inv(Start(db), h, h)
  {
    hide Honest;
  }

  lemma EmptyIsHonest(nextId: int)
    requires nextId > 0
    ensures Honest(Init(nextId).committed, [])
  {
  }

  /** Started on any honest log, an empty one or one that a backfill has made honest: in every state
      that interleaved appends and prunes reach, rollbacks included, the committed log passes a full
      check and every ranged check, id order is chain order, and no two committed rows have the
      same predecessor. */
  lemma CommittedStatesVerify(start: Db, h0: seq<Body>, steps: seq<Step>)
    requires Honest(start, h0) && IsRun(Start(start), steps, true)
    ensures var db := After(Start(start), steps, true).committed;
      VerifyAll(db) == [] && (forall a, b :: VerifyRange(db, a, b) == []) &&
      forall i, j :: 0 <= i < j < |db.rows| ==> db.rows[i].id < db.rows[j].id && db.rows[i].prev != db.rows[j].prev
  {
    hide Inv, VerifyAll, VerifyRange, Honest;
    StartInv(start, h0);
    var h, g := RunKeeps(Start(start), h0, h0, steps);
    var s := After(Start(start), steps, true);
    InvHonest(s, h, g);
    VerifyAcceptsAll(s.committed, h);
    forall a, b
      ensures VerifyRange(s.committed, a, b) == []
    {
      VerifyAcceptsRange(s.committed, h, a, b);
    }
    forall i, j | 0 <= i < j < |s.committed.rows|
      ensures s.committed.rows[i].id < s.committed.rows[j].id && s.committed.rows[i].prev != s.committed.rows[j].prev
    {
      NoFork(s.committed, h, i, j);
    }
  }

  /** A log that predates the chain, backfilled at boot and then appended to and pruned by
      interleaved transactions, passes a full check in every committed state. */
  lemma MigratedStatesVerify(legacy: Db, steps: seq<Step>)
    requires NeverPruned(legacy) && VerifyAll(Backfill(legacy)) == [] && IsRun(Start(Backfill(legacy)), steps, true)
    ensures VerifyAll(After(Start(Backfill(legacy)), steps, true).committed) == []
  {
    hide VerifyAll, Honest, Backfill;
    BackfilledIsHonest(legacy);
    CommittedStatesVerify(Backfill(legacy), Contents(legacy.rows), steps);
  }

  lemma InvHonest(s: Sys, h: seq<Body>, g: seq<Body>)
    requires Inv(s, h, g)
    ensures Honest(s.committed, h)
  {
  }

  /** The history of a later state of a run begins with the history of the earlier one: what has
      been committed stays in the chain. */
  lemma HistoryOnlyGrows(start: Db, h0: seq<Body>, first: seq<Step>, more: seq<Step>)
    requires Honest(start, h0) && IsRun(Start(start), first, true) && IsRun(After(Start(start), first, true), more, true)
    ensures var s := After(Start(start), first, true);
      exists h, h' :: h0 <= h <= h' && Honest(s.committed, h) && Honest(After(s, more, true).committed, h')
  {
    hide Inv, Honest;
    StartInv(start, h0);
    var s := After(Start(start), first, true);
    var h, g := RunKeeps(Start(start), h0, h0, first);
    var h', g' := RunKeeps(s, h, g, more);
    InvHonest(s, h, g);
    InvHonest(After(s, more, true), h', g');
  }

  // ----- What a transaction does by itself --------------------------------------------------------------

  function AppendSteps(t: Tx, body: Body, scope: string): seq<Step> {
    [Lock(t), ReadHead(t, body, scope), InsertRow(t), AdvanceHead(t), Commit(t)]
  }

  /** An append whose statements no other transaction comes between commits the one-step append. */
  lemma AppendGoesThrough(s: Sys, t: Tx, body: Body, scope: string)
    requires s.owner.None? && s.committed.head.Some? && body.action != "" && body.action != PRUNED_ACTION
    ensures IsRun(s, AppendSteps(t, body, scope), true)
    ensures var s' := After(s, AppendSteps(t, body, scope), true);
      Some(s'.committed) == Append(s.committed, body, scope) && s'.owner.None?
  {
    hide IsRun, After;
    var run := AppendSteps(t, body, scope);
    var s1 := Next(s, run[0], true);
    var s2 := Next(s1, run[1], true);
    var s3 := Next(s2, run[2], true);
    var s4 := Next(s3, run[3], true);
    var s5 := Next(s4, run[4], true);
    RunEnd(s5, run[5..], true);
    RunStep(s4, run[4..], true);
    RunStep(s3, run[3..], true);
    RunStep(s2, run[2..], true);
    RunStep(s1, run[1..], true);
    RunStep(s, run, true);
  }

  /** The statements of a prune; it stops after the plan when nothing is old enough. */
  function PruneSteps(t: Tx, cutoff: int, now: int, user: Option<string>, found: bool): seq<Step> {
    [Lock(t), PlanPrune(t, cutoff, now, user)] +
    (if found then [DeleteBlock(t), RecordCheckpoint(t), ReadHeadForNote(t), InsertRow(t), AdvanceHead(t)] else []) + [Commit(t)]
  }

  /** From the plan on: the block goes, the checkpoint is recorded and the note is chained. */
  lemma NoteGoesThrough(s: Sys, t: Tx, run: seq<Step>, n: nat)
    requires s.owner == Some(t) && s.pc.Planned? && s.view.head.Some? && 0 < n <= |s.view.rows|
    requires FromId(s.view.rows, s.pc.boundary) == s.view.rows[n..] && s.pc.last == s.view.rows[n - 1]
    requires run == [DeleteBlock(t), RecordCheckpoint(t), ReadHeadForNote(t), InsertRow(t), AdvanceHead(t), Commit(t)]
    ensures var p, d := s.pc, DropBlock(s.view, n);
      var note := PruneBody(p.user, p.now, p.cutoff, n, p.last.id, p.last.hash, d.head.value.pruned);
      IsRun(s, run, true) && Some(After(s, run, true).committed) == Append(d, note, "") && After(s, run, true).owner.None?
  {
    hide IsRun, After, FromId;
    var s1 := Next(s, run[0], true);
    var s2 := Next(s1, run[1], true);
    assert s2.view == DropBlock(s.view, n);
    var s3 := Next(s2, run[2], true);
    var s4 := Next(s3, run[3], true);
    var s5 := Next(s4, run[4], true);
    var s6 := Next(s5, run[5], true);
    RunEnd(s6, run[6..], true);
    RunStep(s5, run[5..], true);
    RunStep(s4, run[4..], true);
    RunStep(s3, run[3..], true);
    RunStep(s2, run[2..], true);
    RunStep(s1, run[1..], true);
    RunStep(s, run, true);
  }

  /** The plan of a prune: the rows in front of the first one inside the window. */
  lemma PlanFinds(s: Sys, t: Tx, cutoff: int, now: int, user: Option<string>)
    requires s.owner == Some(t) && s.pc.Fresh? && s.view == s.committed && t !in s.snapshots && Ordered(s.committed.rows)
    ensures var n, s' := OldPrefix(s.committed.rows, cutoff), Next(s, PlanPrune(t, cutoff, now, user), true);
      s'.owner == Some(t) && s'.view == s.view &&
      if n == 0 then s'.pc == Ready
      else s'.pc.Planned? && FromId(s'.view.rows, s'.pc.boundary) == s'.view.rows[n..] &&
           s'.pc == Planned(s'.pc.boundary, s'.view.rows[n - 1], cutoff, now, user)
  {
    BoundaryIsPrefix(s.committed.rows, cutoff);
    hide BoundaryId, Before, FromId, OldPrefix, Ordered;
  }

  /** So does a prune. */
  lemma PruneGoesThrough(s: Sys, t: Tx, cutoff: int, now: int, user: Option<string>)
    requires s.owner.None? && s.committed.head.Some? && t !in s.snapshots && Ordered(s.committed.rows)
    ensures var run := PruneSteps(t, cutoff, now, user, OldPrefix(s.committed.rows, cutoff) > 0);
      IsRun(s, run, true) &&
      Some(After(s, run, true).committed) == Prune(s.committed, cutoff, now, user) && After(s, run, true).owner.None?
  {
    hide IsRun, After, BoundaryId, Before, FromId, OldPrefix, Ordered, Append, DropBlock;
    var n := OldPrefix(s.committed.rows, cutoff);
    var run := PruneSteps(t, cutoff, now, user, n > 0);
    var s1 := Next(s, run[0], true);
    PlanFinds(s1, t, cutoff, now, user);
    var s2 := Next(s1, run[1], true);
    if n == 0 {
      var s3 := Next(s2, run[2], true);
      RunEnd(s3, run[3..], true);
      RunStep(s2, run[2..], true);
    } else {
      NoteGoesThrough(s2, t, run[2..], n);
    }
    RunStep(s1, run[1..], true);
    RunStep(s, run, true);
  }

  // ----- Why the head must be read FOR UPDATE ------------------------------------------------------------

  function Entry(action: string): Body {
    Body(None, action, NoDetails, None, 0)
  }

  /** Transaction 1 has fixed its snapshot before transaction 2 appends and commits. */
  function StaleRun(): seq<Step> {
    [Read(1), Lock(2), ReadHead(2, Entry("a"), ""), InsertRow(2), AdvanceHead(2), Commit(2),
     Lock(1), ReadHead(1, Entry("b"), ""), InsertRow(1), AdvanceHead(1), Commit(1)]
  }

  predicate Forked(rows: seq<Row>) {
    |rows| == 2 && rows[0].prev == rows[1].prev
  }

  lemma StaleRunSteps() returns (s: Sys)
    ensures IsRun(Init(1), StaleRun(), false) && After(Init(1), StaleRun(), false) == s
    ensures Forked(s.committed.rows)
  {
    hide IsRun, After;
    var s0, run := Init(1), StaleRun();
    var s6 := Forking();
    var s7 := Next(s6, run[6], false);
    var s8 := Next(s7, run[7], false);
    var s9 := Next(s8, run[8], false);
    var s10 := Next(s9, run[9], false);
    s := Next(s10, run[10], false);
    RunEnd(s, run[11..], false);
    RunStep(s10, run[10..], false);
    RunStep(s9, run[9..], false);
    RunStep(s8, run[8..], false);
    RunStep(s7, run[7..], false);
    RunStep(s6, run[6..], false);
    BeforeFork(run[6..], s);
  }

  /** The state after transaction 2 has committed. */
  function Forking(): Sys {
    var empty := Init(1).committed;
    var hash := Digest(Genesis, Entry("a"));
    var row := Row(1, Entry("a"), "", Some(Genesis), Some(hash));
    var db := Db([row], Some(Head(hash, 1, None, None, 0)), 2);
    Sys(db, None, db, Idle, map[1 := empty])
  }

  lemma BeforeFork(rest: seq<Step>, end: Sys)
    requires IsRun(Forking(), rest, false) && After(Forking(), rest, false) == end && rest == StaleRun()[6..]
    ensures IsRun(Init(1), StaleRun(), false) && After(Init(1), StaleRun(), false) == end
  {
    hide IsRun, After;
    var s0, run := Init(1), StaleRun();
    var s1 := Next(s0, run[0], false);
    var s2 := Next(s1, run[1], false);
    var s3 := Next(s2, run[2], false);
    var s4 := Next(s3, run[3], false);
    var s5 := Next(s4, run[4], false);
    assert Next(s5, run[5], false) == Forking() by {
      assert Next(s5, run[5], false).committed.rows == Forking().committed.rows;
      assert Next(s5, run[5], false).snapshots == Forking().snapshots;
    }
    RunStep(s5, run[5..], false);
    RunStep(s4, run[4..], false);
    RunStep(s3, run[3..], false);
    RunStep(s2, run[2..], false);
    RunStep(s1, run[1..], false);
    RunStep(s0, run, false);
  }

  lemma RunEnd(s: Sys, run: seq<Step>, locking: bool)
    requires run == []
    ensures IsRun(s, run, locking) && After(s, run, locking) == s
  {
  }

  /** With an ordinary read of the head instead of SELECT ... FOR UPDATE, there is a run that
      commits two rows with the same predecessor. */
  lemma OrdinaryReadForks()
    ensures exists steps :: IsRun(Init(1), steps, false) && Forked(After(Init(1), steps, false).committed.rows)
  {
    var s := StaleRunSteps();
  }

  lemma RunStep(s: Sys, run: seq<Step>, locking: bool)
    requires run != [] && Enabled(s, run[0]) && IsRun(Next(s, run[0], locking), run[1..], locking)
    ensures IsRun(s, run, locking) && After(s, run, locking) == After(Next(s, run[0], locking), run[1..], locking)
  {
  }
}
