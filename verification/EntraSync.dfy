/** Bringing a user's memberships in line with the roles claim of a verified sign-in. */
module EntraSync {
  import opened Wrappers
  import opened Text

  type Id = string

  const MAX_CLAIM_VALUES: nat := 100
  const MAX_CLAIM_LENGTH: nat := 255
  const ENTRA := "entra"

  /** A value in the roles claim: a string, or something else. */
  datatype Claim = Str(value: string) | NotStr

  datatype Mapping = Mapping(org: Id, claim: string, workspace: Option<Id>, role: string)

  /** A membership row of the user. */
  datatype Member = Member(role: string, source: Option<string>)

  datatype Target = Target(org: Id, role: string)

  // ----- The claim ------------------------------------------------------------------------------

  /** The length in UTF-16 code units: two for a character outside the basic multilingual plane. */
  function Utf16Length(s: string): (n: nat)
    ensures |s| <= n <= 2 * |s|
  {
    if s == "" then 0 else Utf16Length(s[..|s| - 1]) + if s[|s| - 1] as int >= 0x1_0000 then 2 else 1
  }

  /** Each character counts by itself: one unit inside the basic multilingual plane, two outside. */
  lemma {:induction false} Utf16LengthIs(s: string, t: string, c: char)
    ensures Utf16Length("") == 0 && Utf16Length(s + t) == Utf16Length(s) + Utf16Length(t)
    ensures Utf16Length([c]) == if c as int <= 65535 then 1 else 2
    decreases |t|
  {
    assert [c][..0] == "";
    if t == "" {
      assert s + t == s;
    } else {
      Utf16LengthIs(s, t[..|t| - 1], c);
      assert (s + t)[..|s + t| - 1] == s + t[..|t| - 1];
    }
  }

  /** What a value counts as: a string, trimmed, neither empty nor too long, or nothing. */
  function Clean(claim: Claim): Option<string> {
    if claim.Str? && Trim(claim.value) != "" && Utf16Length(Trim(claim.value)) <= MAX_CLAIM_LENGTH then Some(Trim(claim.value))
    else None
  }

  /** The different values that count, in order of first occurrence. */
  function Distinct(claims: seq<Claim>): seq<string> {
    if claims == [] then []
    else
      var before, last := Distinct(claims[..|claims| - 1]), Clean(claims[|claims| - 1]);
      if last.Some? && last.value !in before then before + [last.value] else before
  }

  predicate Claimed(claims: seq<Claim>, v: string) {
    exists i :: 0 <= i < |claims| && Clean(claims[i]) == Some(v)
  }

  lemma {:induction false} DistinctIsClaimed(claims: seq<Claim>, v: string)
    ensures v in Distinct(claims) <==> Claimed(claims, v)
    decreases |claims|
  {
    hide Clean;
    if claims != [] {
      var shorter := claims[..|claims| - 1];
      DistinctIsClaimed(shorter, v);
      if Claimed(shorter, v) {
        var i :| 0 <= i < |shorter| && Clean(shorter[i]) == Some(v);
        assert Clean(claims[i]) == Some(v);
      }
      if Claimed(claims, v) {
        var i :| 0 <= i < |claims| && Clean(claims[i]) == Some(v);
        if i < |shorter| {
          assert Clean(shorter[i]) == Some(v);
        }
      }
    }
  }

  lemma {:induction false} DistinctHasNoTwins(claims: seq<Claim>)
    ensures forall i, j :: 0 <= i < j < |Distinct(claims)| ==> Distinct(claims)[i] != Distinct(claims)[j]
    decreases |claims|
  {
    hide Clean;
    if claims != [] {
      DistinctHasNoTwins(claims[..|claims| - 1]);
    }
  }

  lemma {:induction false} DistinctGrows(claims: seq<Claim>, n: nat)
    requires n <= |claims|
    ensures Distinct(claims[..n]) <= Distinct(claims)
    decreases |claims|
  {
    hide Clean;
    if n == |claims| {
      assert claims[..n] == claims;
    } else {
      var shorter := claims[..|claims| - 1];
      DistinctGrows(shorter, n);
      assert shorter[..n] == claims[..n];
    }
  }

  lemma DistinctStep(claims: seq<Claim>, n: nat)
    requires n < |claims|
    ensures Distinct(claims[..n + 1]) ==
            var before, last := Distinct(claims[..n]), Clean(claims[n]);
            if last.Some? && last.value !in before then before + [last.value] else before
  {
    assert claims[..n + 1][..n] == claims[..n];
  }

  function First(values: seq<string>, n: nat): seq<string> {
    if |values| <= n then values else values[..n]
  }

  /** Some value of the claim is a string that trims to v, neither empty nor longer than 255. */
  predicate Given(claims: seq<Claim>, v: string) {
    v != "" && Utf16Length(v) <= 255 && exists i :: 0 <= i < |claims| && claims[i].Str? && Trim(claims[i].value) == v
  }

  lemma GivenIsClaimed(claims: seq<Claim>, v: string)
    ensures Given(claims, v) <==> Claimed(claims, v)
  {
    hide Trim, Utf16Length;
    if Claimed(claims, v) {
      var i :| 0 <= i < |claims| && Clean(claims[i]) == Some(v);
      assert Trim(claims[i].value) == v;
    }
    if Given(claims, v) {
      var i :| 0 <= i < |claims| && claims[i].Str? && Trim(claims[i].value) == v;
      assert Clean(claims[i]) == Some(v);
    }
  }

  /** The claims that count: every kept value is a given one, no value twice, at most the first
      hundred; and all of them when they are no more. */
  lemma NormalizedMeans(claims: seq<Claim>, v: string)
    ensures |First(Distinct(claims), MAX_CLAIM_VALUES)| <= 100
    ensures v in First(Distinct(claims), MAX_CLAIM_VALUES) ==> Given(claims, v)
    ensures Given(claims, v) && |Distinct(claims)| <= 100 ==> v in First(Distinct(claims), MAX_CLAIM_VALUES)
    ensures |Distinct(claims)| >= 100 ==> |First(Distinct(claims), MAX_CLAIM_VALUES)| == 100
    ensures forall i, j :: 0 <= i < j < |First(Distinct(claims), MAX_CLAIM_VALUES)| ==>
              First(Distinct(claims), MAX_CLAIM_VALUES)[i] != First(Distinct(claims), MAX_CLAIM_VALUES)[j]
  {
    hide Clean, Distinct, Claimed, Given;
    GivenIsClaimed(claims, v);
    DistinctIsClaimed(claims, v);
    DistinctHasNoTwins(claims);
  }

  lemma ShortPrefixIsFirst(prefix: seq<string>, values: seq<string>, v: string, n: nat)
    requires prefix <= values && |prefix| <= n && v in prefix
    ensures v in First(values, n)
  {
    var k :| 0 <= k < |prefix| && prefix[k] == v;
    assert First(values, n)[k] == v;
  }

  /** The values that are kept are the earliest: each stands in front of every given one that is not. */
  lemma EarliestAreKept(claims: seq<Claim>, v: string, i: nat)
    requires v in First(Distinct(claims), MAX_CLAIM_VALUES)
    requires i < |claims| && Clean(claims[i]).Some? && Clean(claims[i]).value !in First(Distinct(claims), MAX_CLAIM_VALUES)
    ensures exists j :: 0 <= j < i && Clean(claims[j]) == Some(v)
  {
    hide Clean, Distinct;
    var u, before := Clean(claims[i]).value, Distinct(claims[..i]);
    DistinctGrows(claims, i + 1);
    DistinctStep(claims, i);
    DistinctGrows(claims, i);
    if |before| < MAX_CLAIM_VALUES {
      ShortPrefixIsFirst(Distinct(claims[..i + 1]), Distinct(claims), u, MAX_CLAIM_VALUES);
    }
    assert First(Distinct(claims), MAX_CLAIM_VALUES) == before[..MAX_CLAIM_VALUES];
    DistinctIsClaimed(claims[..i], v);
    var j :| 0 <= j < i && Clean(claims[..i][j]) == Some(v);
    assert Clean(claims[j]) == Some(v);
  }

  /** None is a claim that is not an array. */
  method NormalizeRoleClaims(claims: Option<seq<Claim>>) returns (out: seq<string>)
    ensures out == First(Distinct(claims.GetOr([])), MAX_CLAIM_VALUES)
  {
    hide Distinct, Trim;
    out := [];
    if claims.None? {
      assert Distinct([]) == [] by {
        DistinctOfNone();
      }
      return;
    }
    var seen: set<string> := {};
    var raw := claims.value;
    DistinctOfNone();
    assert raw[..0] == [];
    for i := 0 to |raw|
      invariant out == Distinct(raw[..i]) && |out| < MAX_CLAIM_VALUES
      invariant forall v :: v in seen <==> v in out
    {
      DistinctStep(raw, i);
      if raw[i].NotStr? {
        continue;
      }
      var v := Trim(raw[i].value);
      if v == "" || Utf16Length(v) > MAX_CLAIM_LENGTH || v in seen {
        continue;
      }
      seen := seen + {v};
      out := out + [v];
      if |out| >= MAX_CLAIM_VALUES {
        DistinctGrows(raw, i + 1);
        return;
      }
    }
    assert raw[..|raw|] == raw;
  }

  lemma DistinctOfNone()
    ensures Distinct([]) == []
  {
  }

  // ----- The targets ----------------------------------------------------------------------------

  predicate IsWorkspaceRole(role: string) {
    role == "workspace_viewer" || role == "workspace_editor" || role == "workspace_admin"
  }

  function Rank(role: string): nat {
    if role == "workspace_viewer" then 1
    else if role == "workspace_editor" then 2
    else if role == "workspace_admin" then 3
    else 0
  }

  predicate OrgLevel(workspace: Option<Id>) {
    workspace.None? || workspace.value == ""
  }

  predicate GrantsOrg(claims: seq<string>, m: Mapping) {
    m.claim in claims && m.role == "org_admin" && OrgLevel(m.workspace)
  }

  predicate GrantsWorkspace(claims: seq<string>, m: Mapping, workspace: Id) {
    m.claim in claims && IsWorkspaceRole(m.role) && m.workspace == Some(workspace) && workspace != ""
  }

  /** Exactly the organizations of granting mappings, each as org_admin. */
  ghost predicate AreOrgTargets(claims: seq<string>, mappings: set<Mapping>, orgs: map<Id, string>) {
    (forall m :: m in mappings && GrantsOrg(claims, m) ==> m.org in orgs) &&
    forall org :: org in orgs ==> orgs[org] == "org_admin" && exists m :: m in mappings && GrantsOrg(claims, m) && m.org == org
  }

  /** Exactly the workspaces of granting mappings, each with the highest role any of them gives. */
  ghost predicate AreWorkspaceTargets(claims: seq<string>, mappings: set<Mapping>, workspaces: map<Id, Target>) {
    (forall m, w :: m in mappings && GrantsWorkspace(claims, m, w) ==>
                      w in workspaces && Rank(m.role) <= Rank(workspaces[w].role)) &&
    forall w :: w in workspaces ==> Granted(claims, mappings, w, workspaces[w])
  }

  ghost predicate Granted(claims: seq<string>, mappings: set<Mapping>, workspace: Id, target: Target) {
    exists m :: m in mappings && GrantsWorkspace(claims, m, workspace) && target == Target(m.org, m.role)
  }

  function Elements(mappings: seq<Mapping>): set<Mapping> {
    set m | m in mappings
  }

  method ComputeTargetMemberships(claims: seq<string>, mappings: seq<Mapping>)
    returns (orgs: map<Id, string>, workspaces: map<Id, Target>)
    ensures AreOrgTargets(claims, Elements(mappings), orgs)
    ensures AreWorkspaceTargets(claims, Elements(mappings), workspaces)
  {
    orgs, workspaces := map[], map[];
    for i := 0 to |mappings|
      invariant AreOrgTargets(claims, Elements(mappings[..i]), orgs)
      invariant AreWorkspaceTargets(claims, Elements(mappings[..i]), workspaces)
    {
      var m := mappings[i];
      ghost var orgsBefore, wsBefore := orgs, workspaces;
      if m.claim in claims {
        if m.role == "org_admin" && OrgLevel(m.workspace) {
          orgs := orgs[m.org := m.role];
        } else if IsWorkspaceRole(m.role) && !OrgLevel(m.workspace) {
          var w := m.workspace.value;
          if w !in workspaces || Rank(m.role) > Rank(workspaces[w].role) {
            workspaces := workspaces[w := Target(m.org, m.role)];
          }
        }
      }
      assert mappings[..i + 1] == mappings[..i] + [m];
      OrgStep(claims, Elements(mappings[..i]), m, orgsBefore, orgs);
      WorkspaceStep(claims, Elements(mappings[..i]), m, wsBefore, workspaces);
      assert Elements(mappings[..i + 1]) == Elements(mappings[..i]) + {m};
    }
    assert mappings[..|mappings|] == mappings;
  }

  lemma OrgStep(claims: seq<string>, seen: set<Mapping>, m: Mapping, before: map<Id, string>, after: map<Id, string>)
    requires AreOrgTargets(claims, seen, before)
    requires after == if GrantsOrg(claims, m) then before[m.org := "org_admin"] else before
    ensures AreOrgTargets(claims, seen + {m}, after)
  {
    forall org | org in after
      ensures exists n :: n in seen + {m} && GrantsOrg(claims, n) && n.org == org
    {
      if org in before {
        var n :| n in seen && GrantsOrg(claims, n) && n.org == org;
        assert n in seen + {m};
      } else {
        assert m in seen + {m};
      }
    }
  }

  lemma WorkspaceStep(claims: seq<string>, seen: set<Mapping>, m: Mapping, before: map<Id, Target>, after: map<Id, Target>)
    requires AreWorkspaceTargets(claims, seen, before)
    requires var w := m.workspace.GetOr("");
             after == if GrantsWorkspace(claims, m, w) && (w !in before || Rank(m.role) > Rank(before[w].role))
                      then before[w := Target(m.org, m.role)] else before
    ensures AreWorkspaceTargets(claims, seen + {m}, after)
  {
    forall w | w in after
      ensures Granted(claims, seen + {m}, w, after[w])
    {
      if w in before && after[w] == before[w] {
        assert Granted(claims, seen, w, before[w]);
        var n :| n in seen && GrantsWorkspace(claims, n, w) && before[w] == Target(n.org, n.role);
        assert n in seen + {m};
      } else {
        assert m in seen + {m};
      }
    }
  }

  /** The targets depend on which mappings there are, not on their order: the same organizations,
      and the same workspaces with the same roles. */
  lemma TargetsAreUnique(claims: seq<string>, mappings: set<Mapping>, orgs: map<Id, string>, orgs': map<Id, string>,
                         workspaces: map<Id, Target>, workspaces': map<Id, Target>)
    requires AreOrgTargets(claims, mappings, orgs) && AreOrgTargets(claims, mappings, orgs')
    requires AreWorkspaceTargets(claims, mappings, workspaces) && AreWorkspaceTargets(claims, mappings, workspaces')
    ensures orgs == orgs'
    ensures workspaces.Keys == workspaces'.Keys
    ensures forall w :: w in workspaces ==> workspaces[w].role == workspaces'[w].role
  {
    forall w | w in workspaces
      ensures w in workspaces' && Rank(workspaces[w].role) <= Rank(workspaces'[w].role) && IsWorkspaceRole(workspaces[w].role)
    {
      assert Granted(claims, mappings, w, workspaces[w]);
    }
    forall w | w in workspaces'
      ensures w in workspaces && Rank(workspaces'[w].role) <= Rank(workspaces[w].role) && IsWorkspaceRole(workspaces'[w].role)
    {
      assert Granted(claims, mappings, w, workspaces'[w]);
    }
  }

  /** A mapping for one of the claims gives that role in the workspace. */
  ghost predicate Gives(claims: seq<string>, mappings: set<Mapping>, workspace: Id, role: string) {
    exists m :: m in mappings && m.claim in claims && m.workspace == Some(workspace) && m.role == role
  }

  /** A workspace is a target exactly when a mapping gives a role in it, and the role is admin when one
      gives that, else editor when one gives that, else viewer. An organization is one exactly when a
      mapping without a workspace gives org_admin. */
  lemma HighestRoleWins(claims: seq<string>, mappings: set<Mapping>, orgs: map<Id, string>, workspaces: map<Id, Target>, id: Id)
    requires AreOrgTargets(claims, mappings, orgs) && AreWorkspaceTargets(claims, mappings, workspaces)
    ensures var admin, editor, viewer := Gives(claims, mappings, id, "workspace_admin"), Gives(claims, mappings, id, "workspace_editor"),
                                         Gives(claims, mappings, id, "workspace_viewer");
            (id in workspaces <==> id != "" && (admin || editor || viewer)) &&
            (id in workspaces ==> workspaces[id].role == if admin then "workspace_admin" else if editor then "workspace_editor"
                                                         else "workspace_viewer")
    ensures id in orgs <==> exists m :: m in mappings && m.claim in claims && m.org == id && m.role == "org_admin" &&
                                        (m.workspace == None || m.workspace == Some(""))
    ensures id in orgs ==> orgs[id] == "org_admin"
  {
    hide AreOrgTargets;
    OrgTargetsAre(claims, mappings, orgs, id);
    if id in workspaces {
      assert Granted(claims, mappings, id, workspaces[id]);
    }
    forall m | m in mappings && m.claim in claims && m.workspace == Some(id) && id != "" && IsWorkspaceRole(m.role)
      ensures id in workspaces && Rank(m.role) <= Rank(workspaces[id].role)
    {
      assert GrantsWorkspace(claims, m, id);
    }
  }

  lemma OrgTargetsAre(claims: seq<string>, mappings: set<Mapping>, orgs: map<Id, string>, id: Id)
    requires AreOrgTargets(claims, mappings, orgs)
    ensures id in orgs <==> exists m :: m in mappings && m.claim in claims && m.org == id && m.role == "org_admin" &&
                                        (m.workspace == None || m.workspace == Some(""))
    ensures id in orgs ==> orgs[id] == "org_admin"
  {
    if id in orgs {
      var m :| m in mappings && GrantsOrg(claims, m) && m.org == id;
    }
    if m :| m in mappings && m.claim in claims && m.org == id && m.role == "org_admin" && (m.workspace == None || m.workspace == Some("")) {
      assert GrantsOrg(claims, m);
    }
  }

  // ----- What a sync leaves ---------------------------------------------------------------------

  function At<T>(m: map<Id, T>, k: Id): Option<T> {
    if k in m then Some(m[k]) else None
  }

  lemma SameMap<T>(a: map<Id, T>, b: map<Id, T>)
    requires forall k :: At(a, k) == At(b, k)
    ensures a == b
  {
    forall k | k in a || k in b
      ensures k in a && k in b && a[k] == b[k]
    {
      assert At(a, k) == At(b, k);
    }
  }

  predicate Owned(row: Option<Member>) {
    row.Some? && row.value.source == Some(ENTRA)
  }

  predicate ByHand(row: Option<Member>) {
    row.Some? && !Owned(row)
  }

  /** A row after a sync: a manual row stays, an owned one takes the wanted role, and one no longer
      wanted goes if what it belongs to is known. */
  function AfterSync(row: Option<Member>, want: Option<string>, known: bool): Option<Member> {
    if ByHand(row) then row
    else if want.Some? then Some(Member(want.value, Some(ENTRA)))
    else if row.Some? && !known then row
    else None
  }

  ghost predicate IsSynced(after: map<Id, Member>, rows: map<Id, Member>, target: map<Id, string>, known: set<Id>) {
    forall k :: At(after, k) == AfterSync(At(rows, k), At(target, k), k in known)
  }

  /** What a sync reports: the role added, the new role, the role removed, the role not applied. */
  datatype Changes = Changes(added: map<Id, string>, updated: map<Id, string>, removed: map<Id, string>,
                             skipped: map<Id, string>)
  {
    predicate Idle() {
      added == map[] && updated == map[] && removed == map[]
    }
  }

  function When(c: bool, role: Option<string>): Option<string> {
    if c then role else None
  }

  /** The report speaks of each row as it is due. */
  predicate Reported(changes: Changes, k: Id, row: Option<Member>, want: Option<string>, known: bool) {
    At(changes.added, k) == When(row.None?, want) &&
    At(changes.updated, k) == When(Owned(row) && want != Some(row.value.role), want) &&
    At(changes.skipped, k) == When(ByHand(row), want) &&
    At(changes.removed, k) == (if Owned(row) && want.None? && known then Some(row.value.role) else None)
  }

  ghost predicate IsReport(changes: Changes, rows: map<Id, Member>, target: map<Id, string>, known: set<Id>) {
    forall k :: Reported(changes, k, At(rows, k), At(target, k), k in known)
  }

  /** No row that the sync owns, and no longer wants, belongs to something that is gone. */
  ghost predicate NoneStuck(rows: map<Id, Member>, target: map<Id, string>, known: set<Id>) {
    forall k :: Owned(At(rows, k)) && k !in target ==> k in known
  }

  /** The rows the sync owns are exactly the targets not held by a manual row. */
  ghost predicate OwnsTheTargets(rows: map<Id, Member>, after: map<Id, Member>, target: map<Id, string>) {
    forall k :: (if Owned(At(after, k)) then Some(after[k].role) else None) ==
                if ByHand(At(rows, k)) then None else At(target, k)
  }

  /** After a sync the owned rows are exactly the targets not held by a manual row, just when no
      owned row belongs to something that is gone; manual rows are untouched in any case. */
  lemma ExactlyTheTargets(rows: map<Id, Member>, after: map<Id, Member>, target: map<Id, string>, known: set<Id>)
    requires IsSynced(after, rows, target, known)
    ensures OwnsTheTargets(rows, after, target) <==> NoneStuck(rows, target, known)
    ensures forall k :: ByHand(At(rows, k)) || ByHand(At(after, k)) ==> At(after, k) == At(rows, k)
  {
    if OwnsTheTargets(rows, after, target) {
      forall k | Owned(At(rows, k)) && k !in target
        ensures k in known
      {
        assert At(after, k) == AfterSync(At(rows, k), At(target, k), k in known);
      }
    } else {
      var k :| (if Owned(At(after, k)) then Some(after[k].role) else None) !=
               if ByHand(At(rows, k)) then None else At(target, k);
      assert At(after, k) == AfterSync(At(rows, k), At(target, k), k in known);
    }
  }

  /** The rows the sync owned before do not matter. */
  lemma PastIsIrrelevant(rows: map<Id, Member>, rows': map<Id, Member>, after: map<Id, Member>, after': map<Id, Member>,
                         target: map<Id, string>, known: set<Id>)
    requires IsSynced(after, rows, target, known) && IsSynced(after', rows', target, known)
    requires NoneStuck(rows, target, known) && NoneStuck(rows', target, known)
    requires forall k :: ByHand(At(rows, k)) || ByHand(At(rows', k)) ==> At(rows, k) == At(rows', k)
    ensures after == after'
  {
    forall k: Id
      ensures At(after, k) == At(after', k)
    {
      assert At(after, k) == AfterSync(At(rows, k), At(target, k), k in known);
      assert At(after', k) == AfterSync(At(rows', k), At(target, k), k in known);
    }
    SameMap(after, after');
  }

  /** Nothing is reported exactly when nothing changes. */
  lemma IdleMeansUnchanged(rows: map<Id, Member>, after: map<Id, Member>, changes: Changes, target: map<Id, string>,
                           known: set<Id>)
    requires IsSynced(after, rows, target, known) && IsReport(changes, rows, target, known)
    ensures changes.Idle() <==> after == rows
  {
    forall k: Id
      ensures At(after, k) == At(rows, k) <==> k !in changes.added && k !in changes.updated && k !in changes.removed
    {
      RowUnchanged(rows, after, changes, target, known, k);
    }
    if changes.Idle() {
      forall k: Id
        ensures At(after, k) == At(rows, k)
      {
        assert k !in changes.added;
      }
      SameMap(after, rows);
    } else if k :| k in changes.added {
      assert At(after, k) != At(rows, k);
    } else if k :| k in changes.updated {
      assert At(after, k) != At(rows, k);
    } else {
      assert changes.added == map[] && changes.updated == map[];
      assert changes.removed.Keys != {};
      var k :| k in changes.removed;
      assert At(after, k) != At(rows, k);
    }
  }

  lemma RowUnchanged(rows: map<Id, Member>, after: map<Id, Member>, changes: Changes, target: map<Id, string>,
                     known: set<Id>, k: Id)
    requires IsSynced(after, rows, target, known) && IsReport(changes, rows, target, known)
    ensures At(after, k) == At(rows, k) <==> k !in changes.added && k !in changes.updated && k !in changes.removed
  {
    assert At(after, k) == AfterSync(At(rows, k), At(target, k), k in known);
    assert Reported(changes, k, At(rows, k), At(target, k), k in known);
    assert k in changes.added <==> At(changes.added, k).Some?;
    assert k in changes.updated <==> At(changes.updated, k).Some?;
    assert k in changes.removed <==> At(changes.removed, k).Some?;
  }

  /** The report is the difference the sync made: rows that are new, rows with another role, rows that
      are gone, each with the role in question, and the targets held by a row not from "entra", which
      stays as it was. */
  lemma ReportIsDifference(rows: map<Id, Member>, after: map<Id, Member>, changes: Changes, target: map<Id, string>,
                           known: set<Id>, k: Id)
    requires IsSynced(after, rows, target, known) && IsReport(changes, rows, target, known)
    ensures k in changes.added <==> k !in rows && k in after
    ensures k in changes.added ==> changes.added[k] == after[k].role && after[k].source == Some("entra")
    ensures k in changes.updated <==> k in rows && k in after && rows[k].role != after[k].role
    ensures k in changes.updated ==> changes.updated[k] == after[k].role
    ensures k in changes.removed <==> k in rows && k !in after
    ensures k in changes.removed ==> changes.removed[k] == rows[k].role
    ensures k in changes.skipped <==> k in target && k in rows && rows[k].source != Some("entra")
    ensures k in changes.skipped ==> changes.skipped[k] == target[k]
    ensures k in rows && rows[k].source != Some("entra") ==> k in after && after[k] == rows[k]
  {
    assert At(after, k) == AfterSync(At(rows, k), At(target, k), k in known);
    assert Reported(changes, k, At(rows, k), At(target, k), k in known);
    ReportedAt(changes, k);
  }

  lemma ReportedAt(changes: Changes, k: Id)
    ensures k in changes.added <==> At(changes.added, k).Some?
    ensures k in changes.updated <==> At(changes.updated, k).Some?
    ensures k in changes.removed <==> At(changes.removed, k).Some?
    ensures k in changes.skipped <==> At(changes.skipped, k).Some?
  {
  }

  /** A second sync with the same targets changes nothing and reports nothing but the skips. */
  lemma SecondSyncIsIdle(rows: map<Id, Member>, after: map<Id, Member>, again: map<Id, Member>, changes: Changes,
                         target: map<Id, string>, known: set<Id>)
    requires IsSynced(after, rows, target, known)
    requires IsSynced(again, after, target, known) && IsReport(changes, after, target, known)
    ensures again == after && changes.Idle()
  {
    forall k: Id
      ensures At(again, k) == At(after, k)
    {
      assert At(after, k) == AfterSync(At(rows, k), At(target, k), k in known);
      assert At(again, k) == AfterSync(At(after, k), At(target, k), k in known);
    }
    SameMap(again, after);
    IdleMeansUnchanged(after, again, changes, target, known);
  }

  // ----- The transaction ------------------------------------------------------------------------

  /** The upsert loop has dealt with every target except those still to do. */
  ghost predicate UpsertedBut(rows: map<Id, Member>, changes: Changes, have: map<Id, Member>, target: map<Id, string>,
                              todo: set<Id>) {
    forall k :: var want := if k in todo then None else At(target, k);
                At(rows, k) == AfterSync(At(have, k), want, false) && Reported(changes, k, At(have, k), want, false)
  }

  /** What the loop does for target k. */
  predicate Upserts(have: map<Id, Member>, target: map<Id, string>, k: Id, rows: map<Id, Member>, changes: Changes,
                    rows': map<Id, Member>, changes': Changes)
    requires k in target
  {
    rows' == (if ByHand(At(have, k)) then rows else rows[k := Member(target[k], Some(ENTRA))]) &&
    changes'.removed == changes.removed &&
    changes'.added == (if k !in have then changes.added[k := target[k]] else changes.added) &&
    changes'.skipped == (if ByHand(At(have, k)) then changes.skipped[k := target[k]] else changes.skipped) &&
    changes'.updated == (if Owned(At(have, k)) && have[k].role != target[k] then changes.updated[k := target[k]]
                         else changes.updated)
  }

  lemma UpsertHere(have: map<Id, Member>, target: map<Id, string>, k: Id, rows: map<Id, Member>, changes: Changes,
                   rows': map<Id, Member>, changes': Changes)
    requires k in target && Upserts(have, target, k, rows, changes, rows', changes')
    requires At(rows, k) == AfterSync(At(have, k), None, false) && Reported(changes, k, At(have, k), None, false)
    ensures At(rows', k) == AfterSync(At(have, k), At(target, k), false)
    ensures Reported(changes', k, At(have, k), At(target, k), false)
  {
  }

  lemma UpsertStep(rows: map<Id, Member>, changes: Changes, have: map<Id, Member>, target: map<Id, string>,
                   todo: set<Id>, k: Id, rows': map<Id, Member>, changes': Changes)
    requires UpsertedBut(rows, changes, have, target, todo) && k in todo && k in target
    requires Upserts(have, target, k, rows, changes, rows', changes')
    ensures UpsertedBut(rows', changes', have, target, todo - {k})
  {
    hide AfterSync;
    forall j: Id
      ensures var want := if j in todo - {k} then None else At(target, j);
              At(rows', j) == AfterSync(At(have, j), want, false) && Reported(changes', j, At(have, j), want, false)
    {
      var want := if j in todo then None else At(target, j);
      assert At(rows, j) == AfterSync(At(have, j), want, false) && Reported(changes, j, At(have, j), want, false);
      if j == k {
        UpsertHere(have, target, k, rows, changes, rows', changes');
      }
    }
  }

  lemma UpsertEnds(rows: map<Id, Member>, changes: Changes, have: map<Id, Member>, target: map<Id, string>)
    ensures UpsertedBut(have, Changes(map[], map[], map[], map[]), have, target, target.Keys)
    ensures UpsertedBut(rows, changes, have, target, {}) ==>
              IsSynced(rows, have, target, {}) && IsReport(changes, have, target, {})
  {
  }

  /** One of the two upsert loops: over the targets, against the rows as they were read. */
  method Upsert(have: map<Id, Member>, target: map<Id, string>) returns (rows: map<Id, Member>, changes: Changes)
    ensures IsSynced(rows, have, target, {}) && IsReport(changes, have, target, {})
  {
    hide UpsertedBut, IsSynced, IsReport;
    rows, changes := have, Changes(map[], map[], map[], map[]);
    UpsertEnds(rows, changes, have, target);
    var todo := target.Keys;
    while todo != {}
      invariant todo <= target.Keys && UpsertedBut(rows, changes, have, target, todo)
      decreases |todo|
    {
      var k :| k in todo;
      var role := target[k];
      ghost var rows0, changes0 := rows, changes;
      if k !in have {
        rows := rows[k := Member(role, Some(ENTRA))];
        changes := changes.(added := changes.added[k := role]);
      } else if have[k].source != Some(ENTRA) {
        changes := changes.(skipped := changes.skipped[k := role]);
      } else if have[k].role != role {
        rows := rows[k := Member(role, Some(ENTRA))];
        changes := changes.(updated := changes.updated[k := role]);
      } else {
        RowThere(rows, changes, have, target, todo, k);
        assert rows == rows[k := Member(role, Some(ENTRA))];
      }
      UpsertStep(rows0, changes0, have, target, todo, k, rows, changes);
      todo := todo - {k};
    }
    UpsertEnds(rows, changes, have, target);
  }

  lemma RowThere(rows: map<Id, Member>, changes: Changes, have: map<Id, Member>, target: map<Id, string>,
                 todo: set<Id>, k: Id)
    requires UpsertedBut(rows, changes, have, target, todo) && k in todo && k in have
    ensures k in rows && rows[k] == have[k]
  {
    assert At(rows, k) == AfterSync(At(have, k), if k in todo then None else At(target, k), false);
  }

  /** The removal loop has looked at every row except those still to do. */
  ghost predicate RemovedBut(rows: map<Id, Member>, changes: Changes, have: map<Id, Member>, target: map<Id, string>,
                             inScope: set<Id>, todo: set<Id>) {
    forall k :: var known := k in inScope && k !in todo;
                At(rows, k) == AfterSync(At(have, k), At(target, k), known) &&
                Reported(changes, k, At(have, k), At(target, k), known)
  }

  lemma RemoveStep(rows: map<Id, Member>, changes: Changes, have: map<Id, Member>, target: map<Id, string>,
                   inScope: set<Id>, todo: set<Id>, k: Id, rows': map<Id, Member>, changes': Changes)
    requires RemovedBut(rows, changes, have, target, inScope, todo) && k in todo && k in have
    requires rows' == if Owned(At(have, k)) && k !in target && k in inScope then rows - {k} else rows
    requires changes' == if Owned(At(have, k)) && k !in target && k in inScope
                         then changes.(removed := changes.removed[k := have[k].role]) else changes
    ensures RemovedBut(rows', changes', have, target, inScope, todo - {k})
  {
    forall j: Id
      ensures var known := j in inScope && j !in todo - {k};
              At(rows', j) == AfterSync(At(have, j), At(target, j), known) &&
              Reported(changes', j, At(have, j), At(target, j), known)
    {
      var known := j in inScope && j !in todo;
      assert At(rows, j) == AfterSync(At(have, j), At(target, j), known);
      assert Reported(changes, j, At(have, j), At(target, j), known);
    }
  }

  lemma RemovalEnds(rows: map<Id, Member>, changes: Changes, have: map<Id, Member>, target: map<Id, string>, inScope: set<Id>)
    ensures IsSynced(rows, have, target, {}) && IsReport(changes, have, target, {}) ==>
              RemovedBut(rows, changes, have, target, inScope, have.Keys)
    ensures RemovedBut(rows, changes, have, target, inScope, {}) ==>
              IsSynced(rows, have, target, inScope) && IsReport(changes, have, target, inScope)
  {
    if IsSynced(rows, have, target, {}) && IsReport(changes, have, target, {}) {
      forall k: Id
        ensures var known := k in inScope && k !in have.Keys;
                At(rows, k) == AfterSync(At(have, k), At(target, k), known) &&
                Reported(changes, k, At(have, k), At(target, k), known)
      {
        assert At(rows, k) == AfterSync(At(have, k), At(target, k), false);
        assert Reported(changes, k, At(have, k), At(target, k), false);
      }
    }
  }

  /** One of the two removal loops: over the rows as they were read. */
  method RemoveUnwanted(have: map<Id, Member>, upserted: map<Id, Member>, reported: Changes, target: map<Id, string>,
                        inScope: set<Id>)
    returns (rows: map<Id, Member>, changes: Changes)
    requires IsSynced(upserted, have, target, {}) && IsReport(reported, have, target, {})
    ensures IsSynced(rows, have, target, inScope) && IsReport(changes, have, target, inScope)
  {
    hide RemovedBut, IsSynced, IsReport;
    rows, changes := upserted, reported;
    RemovalEnds(rows, changes, have, target, inScope);
    var todo := have.Keys;
    while todo != {}
      invariant todo <= have.Keys && RemovedBut(rows, changes, have, target, inScope, todo)
      decreases |todo|
    {
      var k :| k in todo;
      ghost var rows0, changes0 := rows, changes;
      if have[k].source == Some(ENTRA) && k !in target && k in inScope {
        rows := rows - {k};
        changes := changes.(removed := changes.removed[k := have[k].role]);
      }
      RemoveStep(rows0, changes0, have, target, inScope, todo, k, rows, changes);
      todo := todo - {k};
    }
    RemovalEnds(rows, changes, have, target, inScope);
  }

  /** A mapping counts only if its workspace belongs to its organization. */
  predicate Sound(m: Mapping, workspaces: map<Id, Id>) {
    m.workspace.None? || (m.workspace.value in workspaces && workspaces[m.workspace.value] == m.org)
  }

  function Select(mappings: seq<Mapping>, workspaces: map<Id, Id>): (selected: seq<Mapping>)
    ensures forall m :: m in selected <==> m in mappings && Sound(m, workspaces)
  {
    if mappings == [] then []
    else
      var rest := Select(mappings[1..], workspaces);
      assert forall m :: m in mappings <==> m == mappings[0] || m in mappings[1..];
      if Sound(mappings[0], workspaces) then [mappings[0]] + rest else rest
  }

  function SoundMappings(mappings: seq<Mapping>, workspaces: map<Id, Id>): set<Mapping> {
    set m | m in mappings && Sound(m, workspaces)
  }

  lemma SelectIsSound(mappings: seq<Mapping>, workspaces: map<Id, Id>)
    ensures Elements(Select(mappings, workspaces)) == SoundMappings(mappings, workspaces)
  {
  }

  function Roles(targets: map<Id, Target>): map<Id, string> {
    map w | w in targets :: targets[w].role
  }

  /** Only for rows the sync owns does it matter what is known. */
  lemma KnownOnOwned(rows: map<Id, Member>, changes: Changes, have: map<Id, Member>, target: map<Id, string>,
                     a: set<Id>, b: set<Id>)
    requires IsSynced(rows, have, target, a) && IsReport(changes, have, target, a)
    requires forall k :: Owned(At(have, k)) ==> (k in a <==> k in b)
    ensures IsSynced(rows, have, target, b) && IsReport(changes, have, target, b)
  {
    forall k: Id
      ensures At(rows, k) == AfterSync(At(have, k), At(target, k), k in b)
      ensures Reported(changes, k, At(have, k), At(target, k), k in b)
    {
      assert At(rows, k) == AfterSync(At(have, k), At(target, k), k in a);
      assert Reported(changes, k, At(have, k), At(target, k), k in a);
    }
  }

  /** The organizations in which rows may be removed: those with a mapping, and those in which the
      user has an owned row. */
  function RemovalScope(selected: seq<Mapping>, orgs: map<Id, Member>, members: map<Id, Member>, workspaces: map<Id, Id>): set<Id> {
    (set m | m in selected :: m.org)
    + (set k | k in orgs && orgs[k].source == Some(ENTRA))
    + (set k | k in members && members[k].source == Some(ENTRA) && k in workspaces :: workspaces[k])
  }

  /** No owned row is out of scope, unless its workspace is gone. */
  lemma ScopeCoversOwned(selected: seq<Mapping>, orgs: map<Id, Member>, members: map<Id, Member>, workspaces: map<Id, Id>,
                         orgScope: set<Id>, workspaceScope: set<Id>)
    requires var scope := RemovalScope(selected, orgs, members, workspaces);
             orgScope == (set k | k in orgs && k in scope) &&
             workspaceScope == set k | k in members && k in workspaces && workspaces[k] in scope
    ensures forall k :: Owned(At(orgs, k)) ==> (k in orgScope <==> k in orgs.Keys)
    ensures forall k :: Owned(At(members, k)) ==> (k in workspaceScope <==> k in workspaces.Keys)
  {
  }

  /** Both loops over one kind of membership. */
  method SyncRows(have: map<Id, Member>, target: map<Id, string>, inScope: set<Id>, ghost known: set<Id>)
    returns (rows: map<Id, Member>, changes: Changes)
    requires forall k :: Owned(At(have, k)) ==> (k in inScope <==> k in known)
    ensures IsSynced(rows, have, target, known) && IsReport(changes, have, target, known)
  {
    hide IsSynced, IsReport;
    rows, changes := Upsert(have, target);
    rows, changes := RemoveUnwanted(have, rows, changes, target, inScope);
    KnownOnOwned(rows, changes, have, target, inScope, known);
  }

  datatype Summary = Summary(orgs: Changes, workspaces: Changes)
  {
    predicate Idle() {
      orgs.Idle() && workspaces.Idle()
    }
  }

  /** One user's membership rows. */
  datatype Rows = Rows(orgs: map<Id, Member>, workspaces: map<Id, Member>)

  /** A sync is idle exactly when it leaves all rows as they were. */
  lemma IdleSyncChangesNothing(before: Rows, after: Rows, summary: Summary, orgs: map<Id, string>, roles: map<Id, string>,
                               workspaces: set<Id>)
    requires Commits(before, after, summary, orgs, roles, workspaces)
    ensures summary.Idle() <==> after == before
  {
    hide IsSynced, IsReport, Changes.Idle;
    IdleMeansUnchanged(before.orgs, after.orgs, summary.orgs, orgs, before.orgs.Keys);
    IdleMeansUnchanged(before.workspaces, after.workspaces, summary.workspaces, roles, workspaces);
  }

  /** What the mappings that are sound grant for the claims that count. */
  ghost predicate AreTargets(claims: Option<seq<Claim>>, mappings: seq<Mapping>, workspaces: map<Id, Id>,
                             orgs: map<Id, string>, targets: map<Id, Target>)
  {
    var values, sound := First(Distinct(claims.GetOr([])), MAX_CLAIM_VALUES), SoundMappings(mappings, workspaces);
    AreOrgTargets(values, sound, orgs) && AreWorkspaceTargets(values, sound, targets)
  }

  /** Only mappings whose workspace exists and belongs to their organization count: a workspace target
      belongs to the organization that grants it. */
  lemma TargetsAreSound(claims: Option<seq<Claim>>, mappings: seq<Mapping>, workspaces: map<Id, Id>,
                        orgs: map<Id, string>, targets: map<Id, Target>, id: Id)
    requires AreTargets(claims, mappings, workspaces, orgs, targets)
    ensures var values := First(Distinct(claims.GetOr([])), MAX_CLAIM_VALUES);
            id in targets <==> (id != "" && id in workspaces &&
              exists m :: m in mappings && m.claim in values && m.workspace == Some(id) && m.org == workspaces[id] &&
                          m.role in ["workspace_viewer", "workspace_editor", "workspace_admin"])
  {
    hide Distinct, First, AreOrgTargets, AreWorkspaceTargets, Elements;
    var values, sound := First(Distinct(claims.GetOr([])), MAX_CLAIM_VALUES), SoundMappings(mappings, workspaces);
    HighestRoleWins(values, sound, orgs, targets, id);
    if id in targets {
      var m :| m in sound && m.claim in values && m.workspace == Some(id) && IsWorkspaceRole(m.role);
      assert m in mappings && m.claim in values && m.workspace == Some(id) && m.org == workspaces[id];
    }
    if id in workspaces {
      if m :| m in mappings && m.claim in values && m.workspace == Some(id) && m.org == workspaces[id] &&
              m.role in ["workspace_viewer", "workspace_editor", "workspace_admin"] {
        assert m in sound;
        assert Gives(values, sound, id, m.role);
      }
    }
  }

  /** What a committed sync leaves and reports: an organization is known when the user has a row in
      it, a workspace when it exists. */
  ghost predicate Commits(before: Rows, after: Rows, summary: Summary, orgs: map<Id, string>, roles: map<Id, string>,
                          workspaces: set<Id>)
  {
    IsSynced(after.orgs, before.orgs, orgs, before.orgs.Keys) && IsReport(summary.orgs, before.orgs, orgs, before.orgs.Keys) &&
    IsSynced(after.workspaces, before.workspaces, roles, workspaces) && IsReport(summary.workspaces, before.workspaces, roles, workspaces)
  }

  /** Some sync of these rows changes one. */
  ghost predicate WouldChange(before: Rows, orgs: map<Id, string>, roles: map<Id, string>, workspaces: set<Id>) {
    exists after, summary :: Commits(before, after, summary, orgs, roles, workspaces) && after != before
  }

  lemma WouldCommit(before: Rows, after: Rows, summary: Summary, orgs: map<Id, string>, roles: map<Id, string>,
                    workspaces: set<Id>)
    requires Commits(before, after, summary, orgs, roles, workspaces) && after != before
    ensures WouldChange(before, orgs, roles, workspaces)
  {
    hide Commits;
  }

  /** Signing in again with the same claims, while mappings and workspaces stay, changes no row and
      reports nothing but the skips, whatever targets the two syncs arrive at. */
  lemma SecondSignInIsIdle(claims: Option<seq<Claim>>, mappings: seq<Mapping>, workspaces: map<Id, Id>,
                           orgs: map<Id, string>, targets: map<Id, Target>, orgs': map<Id, string>, targets': map<Id, Target>,
                           before: Rows, after: Rows, again: Rows, first: Summary, second: Summary)
    requires AreTargets(claims, mappings, workspaces, orgs, targets) && AreTargets(claims, mappings, workspaces, orgs', targets')
    requires Commits(before, after, first, orgs, Roles(targets), workspaces.Keys)
    requires Commits(after, again, second, orgs', Roles(targets'), workspaces.Keys)
    ensures again == after && second.Idle()
  {
    hide Distinct, First, AreOrgTargets, AreWorkspaceTargets, IsSynced, IsReport, Changes.Idle;
    var values, sound := First(Distinct(claims.GetOr([])), MAX_CLAIM_VALUES), SoundMappings(mappings, workspaces);
    TargetsAreUnique(values, sound, orgs, orgs', targets, targets');
    assert Roles(targets) == Roles(targets');
    var known := before.orgs.Keys + after.orgs.Keys;
    KnownOnOwned(after.orgs, first.orgs, before.orgs, orgs, before.orgs.Keys, known);
    KnownOnOwned(again.orgs, second.orgs, after.orgs, orgs, after.orgs.Keys, known);
    SecondSyncIsIdle(before.orgs, after.orgs, again.orgs, second.orgs, orgs, known);
    SecondSyncIsIdle(before.workspaces, after.workspaces, again.workspaces, second.workspaces, Roles(targets), workspaces.Keys);
  }

  lemma TargetsAre(claims: Option<seq<Claim>>, mappings: seq<Mapping>, workspaces: map<Id, Id>,
                   orgs: map<Id, string>, targets: map<Id, Target>)
    requires AreOrgTargets(First(Distinct(claims.GetOr([])), MAX_CLAIM_VALUES), SoundMappings(mappings, workspaces), orgs)
    requires AreWorkspaceTargets(First(Distinct(claims.GetOr([])), MAX_CLAIM_VALUES), SoundMappings(mappings, workspaces), targets)
    ensures AreTargets(claims, mappings, workspaces, orgs, targets)
  {
    hide Distinct, First, AreOrgTargets, AreWorkspaceTargets, SoundMappings;
  }

  /** The loops over both kinds of membership. */
  method SyncBoth(before: Rows, selected: seq<Mapping>, workspaces: map<Id, Id>, wantedOrgs: map<Id, string>, wanted: map<Id, string>)
    returns (after: Rows, summary: Summary)
    ensures Commits(before, after, summary, wantedOrgs, wanted, workspaces.Keys)
  {
    hide IsSynced, IsReport, RemovalScope, Owned, At;
    var scope := RemovalScope(selected, before.orgs, before.workspaces, workspaces);
    var orgScope := set k | k in before.orgs && k in scope;
    var workspaceScope := set k | k in before.workspaces && k in workspaces && workspaces[k] in scope;
    ScopeCoversOwned(selected, before.orgs, before.workspaces, workspaces, orgScope, workspaceScope);
    var org, orgChanges := SyncRows(before.orgs, wantedOrgs, orgScope, before.orgs.Keys);
    var workspace, workspaceChanges := SyncRows(before.workspaces, wanted, workspaceScope, workspaces.Keys);
    after, summary := Rows(org, workspace), Summary(orgChanges, workspaceChanges);
  }

  /** The mappings, the organization of each workspace, and one user's membership rows. */
  class Directory {
    var mappings: seq<Mapping>
    var workspaces: map<Id, Id>
    var orgRows: map<Id, Member>
    var workspaceRows: map<Id, Member>
    var audits: nat

    /** One sync in one transaction; audited says whether the audit row can be written. None is the
        error that is thrown when it cannot, after everything has been rolled back. */
    method SyncEntraRoles(claims: Option<seq<Claim>>, audited: bool)
      returns (r: Option<Summary>, ghost orgs: map<Id, string>, ghost targets: map<Id, Target>)
      modifies this`orgRows, this`workspaceRows, this`audits
      ensures AreTargets(claims, mappings, workspaces, orgs, targets)
      ensures r.None? ==> orgRows == old(orgRows) && workspaceRows == old(workspaceRows) && audits == old(audits)
      ensures r.Some? ==> Commits(Rows(old(orgRows), old(workspaceRows)), Rows(orgRows, workspaceRows), r.value,
                                  orgs, Roles(targets), workspaces.Keys)
      ensures r.Some? ==> audits == old(audits) + if orgRows == old(orgRows) && workspaceRows == old(workspaceRows) then 0 else 1
      ensures r.Some? ==> (orgRows == old(orgRows) && workspaceRows == old(workspaceRows)) || audited
      ensures r.None? ==> !audited && WouldChange(Rows(orgRows, workspaceRows), orgs, Roles(targets), workspaces.Keys)
    {
      hide *;
      var values := NormalizeRoleClaims(claims);
      var selected := Select(mappings, workspaces);
      var wantedOrgs, wanted := ComputeTargetMemberships(values, selected);
      SelectIsSound(mappings, workspaces);
      TargetsAre(claims, mappings, workspaces, wantedOrgs, wanted);
      orgs, targets := wantedOrgs, wanted;
      var before := Rows(orgRows, workspaceRows);
      var after, summary := SyncBoth(before, selected, workspaces, wantedOrgs, Roles(wanted));
      IdleSyncChangesNothing(before, after, summary, wantedOrgs, Roles(wanted), workspaces.Keys);
      if !summary.Idle() {
        if !audited {
          WouldCommit(before, after, summary, wantedOrgs, Roles(wanted), workspaces.Keys);
          return None, orgs, targets;
        }
        audits := audits + 1;
      }
      orgRows, workspaceRows := after.orgs, after.workspaces;
      r := Some(summary);
    }
  }
}
