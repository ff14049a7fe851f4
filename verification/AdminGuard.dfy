/** The protection of the last active platform admin, over every interleaving of transactions
    under REPEATABLE READ. */
module AdminGuard {
  import opened Sets
  import opened Wrappers

  type UserId = nat
  type Tx = nat

  datatype User = User(role: string, deactivated: bool)

  type Users = map<UserId, User>

  predicate IsPlatformRole(role: string) {
    role == "superadmin" || role == "platform_admin"
  }

  predicate Active(user: User) {
    IsPlatformRole(user.role) && !user.deactivated
  }

  function Lookup(users: Users, id: UserId): Option<User> {
    if id in users then Some(users[id]) else None
  }

  predicate ActiveRow(row: Option<User>) {
    row.Some? && Active(row.value)
  }

  /** A row written, or deleted with None. */
  function Put(users: Users, id: UserId, row: Option<User>): Users {
    if row.Some? then users[id := row.value] else users - {id}
  }

  function ActiveAdmins(users: Users): set<UserId> {
    set id | id in users && Active(users[id])
  }

  /** How far a transaction that may remove an admin has come. */
  datatype Phase =
    | Begun
    | Locked                                                 // 1. holds the platform_admins lock
    | Targeted(id: UserId, seen: Option<User>)               // 2. target row read FOR UPDATE
    | Cleared(id: UserId, seen: Option<User>)                // 3. the guard has let it pass
    | Changed(id: UserId, seen: Option<User>, row: Option<User>)  // 4. the change is made

  /** A transaction: one that may remove an active admin, with the snapshot its ordinary reads
      see once the first has fixed it, or any other one, with the rows it has written. */
  datatype Txn =
    | Remover(phase: Phase, snapshot: Option<Users>)
    | Other(writes: map<UserId, Option<User>>)

  /** Committed users, holder of the platform_admins lock, row locks and open transactions. */
  datatype Sys = Sys(users: Users, holder: Option<Tx>, rowLocks: map<UserId, Tx>, txns: map<Tx, Txn>)

  datatype Step =
    | BeginRemover(t: Tx)
    | OrdinaryRead(t: Tx)                                    // any SELECT without FOR UPDATE
    | LockAdmins(t: Tx)
    | ReadTarget(t: Tx, id: UserId)                          // SELECT ... FOR UPDATE
    | Guard(t: Tx)
    | Change(t: Tx, row: Option<User>)                       // any change of the target row
    | BeginOther(t: Tx)
    | WriteOther(t: Tx, id: UserId, row: Option<User>)
    | Commit(t: Tx)
    | Rollback(t: Tx)

  predicate RowFree(s: Sys, t: Tx, id: UserId) {
    id !in s.rowLocks || s.rowLocks[id] == t
  }

  /** What t sees with an ordinary read of the users. */
  function View(s: Sys, t: Tx): Users
    requires t in s.txns && s.txns[t].Remover?
  {
    s.txns[t].snapshot.GetOr(s.users)
  }

  /** The guard: a target that is not an active admin passes, an active one passes when the
      count finds more than one. */
  predicate GuardPasses(seen: Option<User>, view: Users) {
    !ActiveRow(seen) || |ActiveAdmins(view)| > 1
  }

  /** With early true, a transaction may read before it takes the lock. */
  predicate Enabled(s: Sys, step: Step, early: bool) {
    match step
    case BeginRemover(t) => t !in s.txns
    case BeginOther(t) => t !in s.txns
    case OrdinaryRead(t) => t in s.txns && s.txns[t].Remover? && (early || !s.txns[t].phase.Begun?)
    case LockAdmins(t) => t in s.txns && s.txns[t].Remover? && s.txns[t].phase.Begun? && s.holder.None?
    case ReadTarget(t, id) => t in s.txns && s.txns[t].Remover? && s.txns[t].phase.Locked? && RowFree(s, t, id)
    case Guard(t) =>
      t in s.txns && s.txns[t].Remover? && s.txns[t].phase.Targeted? && GuardPasses(s.txns[t].phase.seen, View(s, t))
    case Change(t, row) => t in s.txns && s.txns[t].Remover? && s.txns[t].phase.Cleared?
    case WriteOther(t, id, row) =>
      t in s.txns && s.txns[t].Other? && RowFree(s, t, id) && (ActiveRow(Lookup(s.users, id)) ==> ActiveRow(row))
    case Commit(t) => t in s.txns && (s.txns[t].Other? || s.txns[t].phase.Changed?)
    case Rollback(t) => t in s.txns
  }

  function Next(s: Sys, step: Step, early: bool): Sys
    requires Enabled(s, step, early)
  {
    match step
    case BeginRemover(t) => s.(txns := s.txns[t := Remover(Begun, None)])
    case BeginOther(t) => s.(txns := s.txns[t := Other(map[])])
    case OrdinaryRead(t) => s.(txns := s.txns[t := s.txns[t].(snapshot := Some(View(s, t)))])
    case LockAdmins(t) => s.(holder := Some(t), txns := s.txns[t := s.txns[t].(phase := Locked)])
    case ReadTarget(t, id) =>
      s.(rowLocks := s.rowLocks[id := t], txns := s.txns[t := s.txns[t].(phase := Targeted(id, Lookup(s.users, id)))])
    case Guard(t) =>
      var txn := s.txns[t];
      var snapshot := if ActiveRow(txn.phase.seen) then Some(View(s, t)) else txn.snapshot;
      s.(txns := s.txns[t := Remover(Cleared(txn.phase.id, txn.phase.seen), snapshot)])
    case Change(t, row) =>
      var phase := s.txns[t].phase;
      s.(txns := s.txns[t := s.txns[t].(phase := Changed(phase.id, phase.seen, row))])
    case WriteOther(t, id, row) =>
      s.(rowLocks := s.rowLocks[id := t], txns := s.txns[t := Other(s.txns[t].writes[id := row])])
    case Commit(t) =>
      var txn := s.txns[t];
      Released(s, t, if txn.Other? then PutAll(s.users, txn.writes) else Put(s.users, txn.phase.id, txn.phase.row))
    case Rollback(t) => Released(s, t, s.users)
  }

  function PutAll(users: Users, writes: map<UserId, Option<User>>): Users {
    map id | id in users.Keys + writes.Keys && (id in writes ==> writes[id].Some?) ::
      if id in writes then writes[id].value else users[id]
  }

  /** The transaction is over and its locks are free. */
  function Released(s: Sys, t: Tx, users: Users): Sys {
    Sys(users, if s.holder == Some(t) then None else s.holder,
        map id | id in s.rowLocks && s.rowLocks[id] != t :: s.rowLocks[id], s.txns - {t})
  }

  predicate IsRun(s: Sys, steps: seq<Step>, early: bool)
    decreases |steps|
  {
    steps == [] || (Enabled(s, steps[0], early) && IsRun(Next(s, steps[0], early), steps[1..], early))
  }

  function After(s: Sys, steps: seq<Step>, early: bool): Sys
    requires IsRun(s, steps, early)
    decreases |steps|
  {
    if steps == [] then s else After(Next(s, steps[0], early), steps[1..], early)
  }

  function Init(users: Users): Sys {
    Sys(users, None, map[], map[])
  }

  // ----- The invariant --------------------------------------------------------------------------

  /** A transaction that has read its target still holds the row, and the row is as it was read. */
  predicate Holds(s: Sys, t: Tx, id: UserId, seen: Option<User>) {
    id in s.rowLocks && s.rowLocks[id] == t && seen == Lookup(s.users, id)
  }

  /** A second active admin beside the target, in the snapshot that the guard counted. */
  predicate Counted(txn: Txn, seen: Option<User>) {
    txn.Remover? && (ActiveRow(seen) ==> txn.snapshot.Some? && |ActiveAdmins(txn.snapshot.value)| > 1)
  }

  predicate RemoverOk(s: Sys, t: Tx, txn: Txn)
    requires txn.Remover?
  {
    (!txn.phase.Begun? ==> s.holder == Some(t)) &&
    (txn.snapshot.Some? ==> !txn.phase.Begun? && ActiveAdmins(txn.snapshot.value) <= ActiveAdmins(s.users)) &&
    match txn.phase
    case Begun => true
    case Locked => true
    case Targeted(id, seen) => Holds(s, t, id, seen)
    case Cleared(id, seen) => Holds(s, t, id, seen) && Counted(txn, seen)
    case Changed(id, seen, row) => Holds(s, t, id, seen) && Counted(txn, seen)
  }

  predicate WriteOk(s: Sys, t: Tx, id: UserId, row: Option<User>) {
    id in s.rowLocks && s.rowLocks[id] == t && (ActiveRow(Lookup(s.users, id)) ==> ActiveRow(row))
  }

  predicate TxnOk(s: Sys, t: Tx, txn: Txn) {
    match txn
    case Remover(_, _) => RemoverOk(s, t, txn)
    case Other(writes) => forall id :: id in writes ==> WriteOk(s, t, id, writes[id])
  }

  predicate Inv(s: Sys) {
    ActiveAdmins(s.users) != {} && forall t :: t in s.txns ==> TxnOk(s, t, s.txns[t])
  }

  /** Whoever else is open when t ends keeps what it relied on, as long as no active admin is
      lost, or t held the lock. */
  lemma OthersKept(s: Sys, t: Tx, users: Users, u: Tx)
    requires Inv(s) && t in s.txns && u in s.txns && u != t
    requires forall id :: (id !in s.rowLocks || s.rowLocks[id] != t) ==> Lookup(users, id) == Lookup(s.users, id)
    requires ActiveAdmins(s.users) <= ActiveAdmins(users) || s.holder == Some(t)
    ensures TxnOk(Released(s, t, users), u, s.txns[u])
  {
    var txn := s.txns[u];
    assert TxnOk(s, u, txn);
    if txn.Other? {
      forall id | id in txn.writes
        ensures WriteOk(Released(s, t, users), u, id, txn.writes[id])
      {
        assert WriteOk(s, u, id, txn.writes[id]);
      }
    }
  }

  lemma OtherCommitGrows(s: Sys, t: Tx)
    requires Inv(s) && t in s.txns && s.txns[t].Other?
    ensures ActiveAdmins(s.users) <= ActiveAdmins(PutAll(s.users, s.txns[t].writes))
  {
    var writes := s.txns[t].writes;
    assert TxnOk(s, t, s.txns[t]);
    forall id | id in ActiveAdmins(s.users)
      ensures id in ActiveAdmins(PutAll(s.users, writes))
    {
      assert id in writes ==> WriteOk(s, t, id, writes[id]);
    }
  }

  /** The removal leaves an active admin: the guard saw another one, who is still there. */
  lemma RemovalLeavesOne(s: Sys, t: Tx)
    requires Inv(s) && t in s.txns && s.txns[t].Remover? && s.txns[t].phase.Changed?
    ensures ActiveAdmins(Put(s.users, s.txns[t].phase.id, s.txns[t].phase.row)) != {}
  {
    var txn := s.txns[t];
    var id := txn.phase.id;
    var after := ActiveAdmins(Put(s.users, id, txn.phase.row));
    assert TxnOk(s, t, txn);
    if ActiveRow(txn.phase.seen) {
      var counted := ActiveAdmins(txn.snapshot.value);
      if counted <= {id} {
        SubsetCount(counted, {id});
        assert false;
      }
      var another :| another in counted && another != id;
      assert another in after;
    } else {
      var admin :| admin in ActiveAdmins(s.users);
      assert admin in after;
    }
  }

  lemma CommitKeeps(s: Sys, t: Tx)
    requires Inv(s) && Enabled(s, Commit(t), false)
    ensures Inv(Next(s, Commit(t), false))
  {
    var txn, s' := s.txns[t], Next(s, Commit(t), false);
    assert TxnOk(s, t, txn);
    if txn.Other? {
      OtherCommitGrows(s, t);
      forall id | id !in s.rowLocks || s.rowLocks[id] != t
        ensures Lookup(s'.users, id) == Lookup(s.users, id)
      {
        assert id in txn.writes ==> WriteOk(s, t, id, txn.writes[id]);
      }
    } else {
      RemovalLeavesOne(s, t);
    }
    forall u | u in s'.txns
      ensures TxnOk(s', u, s'.txns[u])
    {
      OthersKept(s, t, s'.users, u);
    }
  }

  lemma RollbackKeeps(s: Sys, t: Tx)
    requires Inv(s) && t in s.txns
    ensures Inv(Next(s, Rollback(t), false))
  {
    var s' := Next(s, Rollback(t), false);
    forall u | u in s'.txns
      ensures TxnOk(s', u, s'.txns[u])
    {
      OthersKept(s, t, s'.users, u);
    }
  }

  lemma InnerStepKeeps(s: Sys, step: Step)
    requires Inv(s) && Enabled(s, step, false) && !step.Commit? && !step.Rollback?
    ensures Inv(Next(s, step, false))
  {
    var s' := Next(s, step, false);
    forall u | u in s'.txns
      ensures TxnOk(s', u, s'.txns[u])
    {
      assert u in s.txns ==> TxnOk(s, u, s.txns[u]);
      var txn := s'.txns[u];
      if txn.Other? {
        forall id | id in txn.writes
          ensures WriteOk(s', u, id, txn.writes[id])
        {
          assert u in s.txns && id in s.txns[u].writes ==> WriteOk(s, u, id, s.txns[u].writes[id]);
        }
      }
    }
  }

  lemma {:induction false} RunKeeps(s: Sys, steps: seq<Step>)
    requires Inv(s) && IsRun(s, steps, false)
    ensures Inv(After(s, steps, false))
    decreases |steps|
  {
    hide Inv, Enabled, Next;
    if steps != [] {
      var step := steps[0];
      StepKeeps(s, step);
      RunKeeps(Next(s, step, false), steps[1..]);
    }
  }

  lemma StepKeeps(s: Sys, step: Step)
    requires Inv(s) && Enabled(s, step, false)
    ensures Inv(Next(s, step, false))
  {
    if step.Commit? {
      CommitKeeps(s, step.t);
    } else if step.Rollback? {
      RollbackKeeps(s, step.t);
    } else {
      InnerStepKeeps(s, step);
    }
  }

  /** An account with a platform role that has not been deactivated. */
  predicate Administers(users: Users, id: UserId) {
    id in users && users[id].role in {"platform_admin", "superadmin"} && !users[id].deactivated
  }

  lemma AdminsAre(users: Users)
    ensures forall id :: id in ActiveAdmins(users) <==> Administers(users, id)
  {
  }

  /** Whatever the interleaving, every committed state keeps at least one active platform admin. */
  lemma SomeAdminRemains(users: Users, steps: seq<Step>)
    requires (exists id :: Administers(users, id)) && IsRun(Init(users), steps, false)
    ensures exists id :: Administers(After(Init(users), steps, false).users, id)
  {
    hide Inv, IsRun, After, Administers, ActiveAdmins;
    var admin :| Administers(users, admin);
    AdminsAre(users);
    StartsOk(users);
    RunKeeps(Init(users), steps);
    var s := After(Init(users), steps, false);
    InvKeepsOne(s);
    AdminsAre(s.users);
    var id :| id in ActiveAdmins(s.users);
  }

  lemma StartsOk(users: Users)
    requires ActiveAdmins(users) != {}
    ensures Inv(Init(users))
  {
  }

  lemma InvKeepsOne(s: Sys)
    requires Inv(s)
    ensures ActiveAdmins(s.users) != {}
  {
  }

  /** The guard refuses nothing it need not: counting on a fresh snapshot, it refuses exactly the
      change of the only active admin. */
  lemma RefusesOnlyTheLast(s: Sys, t: Tx)
    requires Inv(s) && t in s.txns && s.txns[t].Remover? && s.txns[t].phase.Targeted? && s.txns[t].snapshot.None?
    ensures !Enabled(s, Guard(t), false) <==> forall id :: Administers(s.users, id) <==> id == s.txns[t].phase.id
  {
    GuardCounts(s, t);
    AdminsAre(s.users);
    var target, admins := s.txns[t].phase.id, ActiveAdmins(s.users);
    hide Inv, Enabled, Administers, ActiveAdmins;
    if forall id :: id in admins <==> id == target {
      assert admins == {target};
    }
  }

  lemma GuardCounts(s: Sys, t: Tx)
    requires Inv(s) && t in s.txns && s.txns[t].Remover? && s.txns[t].phase.Targeted? && s.txns[t].snapshot.None?
    ensures !Enabled(s, Guard(t), false) <==> ActiveAdmins(s.users) == {s.txns[t].phase.id}
  {
    var phase := s.txns[t].phase;
    var admins := ActiveAdmins(s.users);
    assert TxnOk(s, t, s.txns[t]);
    if !Enabled(s, Guard(t), false) {
      assert phase.id in admins;
      SubsetCount({phase.id}, admins);
      SameSize({phase.id}, admins);
    } else if ActiveRow(phase.seen) {
      assert |admins| > 1;
    } else {
      assert phase.id !in admins;
    }
  }

  // ----- What a transaction does by itself --------------------------------------------------------

  lemma RunStep(s: Sys, steps: seq<Step>, early: bool)
    requires steps != [] && Enabled(s, steps[0], early) && IsRun(Next(s, steps[0], early), steps[1..], early)
    ensures IsRun(s, steps, early) && After(s, steps, early) == After(Next(s, steps[0], early), steps[1..], early)
  {
  }

  lemma RunEnd(s: Sys, early: bool)
    ensures IsRun(s, [], early) && After(s, [], early) == s
  {
  }

  /** Transaction t changes the row of user id, or deletes it with None. */
  function Alteration(t: Tx, id: UserId, row: Option<User>): seq<Step> {
    [LockAdmins(t), ReadTarget(t, id), Guard(t), Change(t, row), Commit(t)]
  }

  /** The users after that. */
  function Altered(users: Users, id: UserId, row: Option<User>): Users {
    if row.Some? then users[id := row.value] else users - {id}
  }

  /** What the guard has let pass is changed and committed. */
  lemma ClearedRuns(s: Sys, t: Tx, row: Option<User>, run: seq<Step>, rest: seq<Step>, early: bool)
    requires t in s.txns && s.txns[t].Remover? && s.txns[t].phase.Cleared? && s.holder == Some(t)
    requires s.rowLocks == map[s.txns[t].phase.id := t] && run == [Change(t, row), Commit(t)] + rest
    requires IsRun(Sys(Altered(s.users, s.txns[t].phase.id, row), None, map[], s.txns - {t}), rest, early)
    ensures IsRun(s, run, early)
    ensures After(s, run, early) == After(Sys(Altered(s.users, s.txns[t].phase.id, row), None, map[], s.txns - {t}), rest, early)
  {
    hide IsRun, After;
    var s1 := Next(s, run[0], early);
    var s2 := Next(s1, run[1], early);
    assert s2.rowLocks == map[] && s2.txns == s.txns - {t};
    assert run[2..] == rest;
    RunStep(s1, run[1..], early);
    RunStep(s, run, early);
  }

  /** An alteration of a user goes through and does what it says when its view counts two admins, or
      the user is not one. */
  lemma AlterationRuns(s: Sys, t: Tx, id: UserId, row: Option<User>, rest: seq<Step>, early: bool)
    requires t in s.txns && s.txns[t].Remover? && s.txns[t].phase.Begun? && s.holder.None? && s.rowLocks == map[]
    requires |ActiveAdmins(View(s, t))| > 1 || !Administers(s.users, id)
    requires IsRun(Sys(Altered(s.users, id, row), None, map[], s.txns - {t}), rest, early)
    ensures IsRun(s, Alteration(t, id, row) + rest, early)
    ensures After(s, Alteration(t, id, row) + rest, early) == After(Sys(Altered(s.users, id, row), None, map[], s.txns - {t}), rest, early)
  {
    hide IsRun, After, ActiveAdmins, Altered;
    var run := Alteration(t, id, row) + rest;
    var s1 := Next(s, run[0], early);
    var s2 := Next(s1, run[1], early);
    var s3 := Next(s2, run[2], early);
    assert s3.txns - {t} == s.txns - {t};
    ClearedRuns(s3, t, row, run[3..], rest, early);
    RunStep(s2, run[2..], early);
    RunStep(s1, run[1..], early);
    RunStep(s, run, early);
  }

  /** By itself a change of a user's row goes through, unless it is that of the only active admin, and
      leaves that row and no other changed. */
  lemma ChangeTakesEffect(users: Users, t: Tx, id: UserId, row: Option<User>)
    requires !Administers(users, id) || exists other :: other != id && Administers(users, other)
    ensures var run := [BeginRemover(t)] + Alteration(t, id, row);
      IsRun(Init(users), run, false) && After(Init(users), run, false) == Init(Altered(users, id, row))
  {
    AdminsAre(users);
    if Administers(users, id) {
      var other :| other != id && Administers(users, other);
      SubsetCount({id, other}, ActiveAdmins(users));
    }
    hide IsRun, After, Administers, ActiveAdmins;
    var run := [BeginRemover(t)] + Alteration(t, id, row);
    var s := Next(Init(users), run[0], false);
    assert s.txns - {t} == map[];
    RunEnd(Init(Altered(users, id, row)), false);
    AlterationRuns(s, t, id, row, [], false);
    assert run[1..] == Alteration(t, id, row) + [];
    RunStep(Init(users), run, false);
  }

  /** A committed transaction of another kind leaves exactly the rows it has written changed. */
  lemma OtherTakesEffect(s: Sys, t: Tx, id: UserId)
    requires t in s.txns && s.txns[t].Other?
    ensures Enabled(s, Commit(t), false)
    ensures var s', writes := Next(s, Commit(t), false), s.txns[t].writes;
      if id !in writes then id in s'.users <==> id in s.users else id in s'.users <==> writes[id].Some?
    ensures var s', writes := Next(s, Commit(t), false), s.txns[t].writes;
      id in s'.users ==> s'.users[id] == if id in writes then writes[id].value else s.users[id]
  {
  }

  // ----- Why the lock must come first -----------------------------------------------------------

  const ADMIN := User("platform_admin", false)

  /** Transaction 1 reads before it takes the lock; transaction 0 removes user 0 meanwhile. */
  function EarlyRun(): seq<Step> {
    [BeginRemover(1), OrdinaryRead(1), BeginRemover(0)] + Alteration(0, 0, None) + Alteration(1, 1, None)
  }

  /** When an ordinary read may come before the lock, there is a run that removes both admins. */
  lemma EarlyReadRemovesAll()
    ensures IsRun(Init(map[0 := ADMIN, 1 := ADMIN]), EarlyRun(), true)
    ensures After(Init(map[0 := ADMIN, 1 := ADMIN]), EarlyRun(), true).users == map[]
  {
    var both: Users := map[0 := ADMIN, 1 := ADMIN];
    var s := Init(both);
    var run := EarlyRun();
    assert ActiveAdmins(both) == {0, 1};
    hide IsRun, After;
    var s1 := Next(s, run[0], true);
    var s2 := Next(s1, run[1], true);
    var s3 := Next(s2, run[2], true);
    var end := Sys(map[], None, map[], map[]);
    var mid := Sys(both - {0}, None, map[], s3.txns - {0});
    assert (both - {0}) - {1} == map[];
    assert mid.txns - {1} == map[];
    RunEnd(end, true);
    AlterationRuns(mid, 1, 1, None, [], true);
    assert run[3..] == Alteration(0, 0, None) + (Alteration(1, 1, None) + []);
    AlterationRuns(s3, 0, 0, None, Alteration(1, 1, None) + [], true);
    RunStep(s2, run[2..], true);
    RunStep(s1, run[1..], true);
    RunStep(s, run, true);
  }
}
