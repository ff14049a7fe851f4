/** Read access of regional viewers: the walk up from one workspace and the walk down from the
    user's scopes. */
module RegionScope {
  import opened Wrappers

  type Id = string

  /** level is the region's place in REGION_LEVELS, 0 the highest. */
  datatype Region = Region(org: Id, parent: Option<Id>, level: int)

  datatype Workspace = Workspace(org: Id, region: Option<Id>)

  datatype Scope = Scope(org: Id, user: Id, region: Id)

  datatype Db = Db(regions: map<Id, Region>, workspaces: map<Id, Workspace>, scopes: set<Scope>,
                   roles: map<(Id, Id), string>)

  const REGION_LEVELS := ["region", "cluster", "area", "territory"]
  const MAX_REGION_DEPTH: nat := |REGION_LEVELS|
  const REGIONAL_VIEWER := "regional_viewer"

  predicate IsViewer(db: Db, org: Id, user: Id) {
    (org, user) in db.roles && db.roles[(org, user)] == REGIONAL_VIEWER
  }

  /** The user's scopes, as far as the role in the organization still is regional_viewer. */
  function Scopes(db: Db, user: Id): set<Scope> {
    set s | s in db.scopes && s.user == user && IsViewer(db, s.org, user)
  }

  predicate HasRegionalRole(db: Db, user: Id) {
    user != "" &&
    exists key :: key in db.roles && key.1 == user && IsViewer(db, key.0, user)
  }

  predicate InOrg(db: Db, org: Id, id: Id) {
    id in db.regions && db.regions[id].org == org
  }

  // ----- The two walks --------------------------------------------------------------------------

  /** The recursive query "up": the region and the ancestors above it, at most depth regions,
      all in the organization. */
  function Up(db: Db, org: Id, id: Id, depth: nat): seq<Id>
    decreases depth
  {
    if depth == 0 || !InOrg(db, org, id) then []
    else
      [id] + if db.regions[id].parent.Some? then Up(db, org, db.regions[id].parent.value, depth - 1) else []
  }

  /** None of the ids is missing or empty. */
  predicate IsNamed(user: Id, workspace: Workspace) {
    user != "" && workspace.org != "" && workspace.region.Some? && workspace.region.value != ""
  }

  predicate UpHits(db: Db, user: Id, workspace: Workspace, depth: nat) {
    IsNamed(user, workspace) &&
    exists s :: (s in Scopes(db, user) && s.org == workspace.org &&
                 s.region in Up(db, workspace.org, workspace.region.value, depth))
  }

  predicate IsWorkspaceInRegionalScope(db: Db, user: Id, workspace: Workspace) {
    UpHits(db, user, workspace, MAX_REGION_DEPTH)
  }

  /** The recursive query "down": what lies k - 1 steps below a scope. */
  function Down(db: Db, user: Id, k: nat): set<(Id, Id)>
    requires k > 0
  {
    if k == 1 then set s | s in Scopes(db, user) :: (s.org, s.region)
    else
      set d, c | d in Down(db, user, k - 1) && InOrg(db, d.0, c) && c in db.regions
                 && db.regions[c].parent == Some(d.1) :: (d.0, c)
  }

  predicate DownHits(db: Db, user: Id, workspace: Workspace) {
    HasRegionalRole(db, user) && workspace.region.Some? &&
    exists k :: 0 < k <= MAX_REGION_DEPTH && (workspace.org, workspace.region.value) in Down(db, user, k)
  }

  function RegionalWorkspaceIds(db: Db, user: Id): set<Id> {
    set w | w in db.workspaces && DownHits(db, user, db.workspaces[w])
  }

  // ----- What both walks mean -------------------------------------------------------------------

  /** Regions of one organization, each the child of the next. */
  predicate IsPath(db: Db, org: Id, path: seq<Id>) {
    |path| > 0 &&
    (forall i :: 0 <= i < |path| ==> InOrg(db, org, path[i])) &&
    forall i {:trigger path[i]} :: 0 <= i < |path| - 1 ==> db.regions[path[i]].parent == Some(path[i + 1])
  }

  predicate Joins(db: Db, org: Id, path: seq<Id>, low: Id, high: Id) {
    IsPath(db, org, path) && path[0] == low && path[|path| - 1] == high
  }

  lemma {:induction false} UpHasPath(db: Db, org: Id, low: Id, high: Id, depth: nat) returns (path: seq<Id>)
    requires high in Up(db, org, low, depth)
    ensures |path| <= depth && Joins(db, org, path, low, high)
    decreases depth
  {
    if high == low {
      path := [low];
    } else {
      var parent := db.regions[low].parent.value;
      path := UpHasPath(db, org, parent, high, depth - 1);
      ExtendDown(db, org, path, low, high);
      path := [low] + path;
    }
  }

  lemma {:induction false} PathIsUp(db: Db, org: Id, low: Id, high: Id, depth: nat, path: seq<Id>)
    requires |path| <= depth && Joins(db, org, path, low, high)
    ensures high in Up(db, org, low, depth)
    decreases depth
  {
    assert InOrg(db, org, path[0]);
    if |path| > 1 {
      assert db.regions[path[0]].parent == Some(path[1]);
      Shorten(db, org, path, high);
      PathIsUp(db, org, path[1], high, depth - 1, path[1..]);
    }
  }

  /** The walk up finds exactly what a path of at most depth regions leads to. */
  lemma UpIsPath(db: Db, org: Id, low: Id, high: Id, depth: nat)
    ensures high in Up(db, org, low, depth) <==> exists path :: |path| <= depth && Joins(db, org, path, low, high)
  {
    if high in Up(db, org, low, depth) {
      var path := UpHasPath(db, org, low, high, depth);
    }
    if path :| |path| <= depth && Joins(db, org, path, low, high) {
      PathIsUp(db, org, low, high, depth, path);
    }
  }

  lemma ExtendDown(db: Db, org: Id, path: seq<Id>, child: Id, high: Id)
    requires IsPath(db, org, path) && path[|path| - 1] == high
    requires InOrg(db, org, child) && db.regions[child].parent == Some(path[0])
    ensures Joins(db, org, [child] + path, child, high)
  {
    var longer := [child] + path;
    forall i {:trigger longer[i]} | 0 <= i < |longer| - 1
      ensures InOrg(db, org, longer[i]) && db.regions[longer[i]].parent == Some(longer[i + 1])
    {
      if i > 0 {
        assert longer[i] == path[i - 1] && longer[i + 1] == path[i];
      }
    }
    assert longer[|longer| - 1] == path[|path| - 1];
  }

  lemma Shorten(db: Db, org: Id, path: seq<Id>, high: Id)
    requires IsPath(db, org, path) && |path| > 1 && path[|path| - 1] == high
    ensures Joins(db, org, path[1..], path[1], high)
  {
    var rest := path[1..];
    forall i {:trigger rest[i]} | 0 <= i < |rest|
      ensures InOrg(db, org, rest[i]) && (i < |rest| - 1 ==> db.regions[rest[i]].parent == Some(rest[i + 1]))
    {
      assert rest[i] == path[i + 1];
    }
  }

  /** A scope row of this very user in the organization, where the user's own role is the regional viewer's. */
  predicate MayView(db: Db, user: Id, org: Id, s: Scope) {
    s in db.scopes && s.user == user && s.org == org && (org, user) in db.roles && db.roles[(org, user)] == "regional_viewer"
  }

  /** A workspace is in scope exactly when no id is missing and a path of at most four of its
      organization's regions leads up to a scope of the user. */
  lemma InScopeMeans(db: Db, user: Id, workspace: Workspace)
    ensures IsWorkspaceInRegionalScope(db, user, workspace) <==>
            user != "" && workspace.org != "" && workspace.region.Some? && workspace.region.value != "" &&
            exists s, path :: MayView(db, user, workspace.org, s) && |path| <= 4 &&
                              Joins(db, workspace.org, path, workspace.region.value, s.region)
  {
    hide Joins;
    if IsNamed(user, workspace) {
      forall s
        ensures s in Scopes(db, user) && s.org == workspace.org <==> MayView(db, user, workspace.org, s)
        ensures s.region in Up(db, workspace.org, workspace.region.value, MAX_REGION_DEPTH) <==>
                exists path :: |path| <= 4 && Joins(db, workspace.org, path, workspace.region.value, s.region)
      {
        UpIsPath(db, workspace.org, workspace.region.value, s.region, MAX_REGION_DEPTH);
      }
      hide Up, Scopes;
    }
  }

  lemma {:induction false} DownComesFrom(db: Db, user: Id, org: Id, low: Id, k: nat) returns (s: Scope)
    requires k > 0 && (org, low) in Down(db, user, k)
    ensures MayView(db, user, org, s)
    decreases k
  {
    if k == 1 {
      s :| s in Scopes(db, user) && (s.org, s.region) == (org, low);
    } else {
      var d, c :| d in Down(db, user, k - 1) && InOrg(db, d.0, c) && c in db.regions
                  && db.regions[c].parent == Some(d.1) && (d.0, c) == (org, low);
      s := DownComesFrom(db, user, d.0, d.1, k - 1);
    }
  }

  /** Nor does the downward list hold a workspace of an organization without such a scope. */
  lemma ListedMeans(db: Db, user: Id, id: Id)
    requires id in RegionalWorkspaceIds(db, user)
    ensures id in db.workspaces && user != "" && exists s :: MayView(db, user, db.workspaces[id].org, s)
  {
    var w := db.workspaces[id];
    var k :| 0 < k <= MAX_REGION_DEPTH && (w.org, w.region.value) in Down(db, user, k);
    var s := DownComesFrom(db, user, w.org, w.region.value, k);
  }

  /** What lies below a scope of the organization's own is joined to it by a path. */
  lemma {:induction false} DownHasPath(db: Db, user: Id, org: Id, low: Id, k: nat) returns (s: Scope, path: seq<Id>)
    requires (forall s :: s in Scopes(db, user) ==> InOrg(db, s.org, s.region)) && k > 0 && (org, low) in Down(db, user, k)
    ensures s in Scopes(db, user) && s.org == org && |path| == k && Joins(db, org, path, low, s.region)
    decreases k
  {
    if k == 1 {
      s :| s in Scopes(db, user) && (s.org, s.region) == (org, low);
      path := [low];
    } else {
      var d, c :| d in Down(db, user, k - 1) && InOrg(db, d.0, c) && c in db.regions
                  && db.regions[c].parent == Some(d.1) && (d.0, c) == (org, low);
      s, path := DownHasPath(db, user, org, d.1, k - 1);
      ExtendDown(db, org, path, low, s.region);
      path := [low] + path;
    }
  }

  lemma {:induction false} PathIsDown(db: Db, user: Id, s: Scope, low: Id, path: seq<Id>)
    requires s in Scopes(db, user) && Joins(db, s.org, path, low, s.region)
    ensures (s.org, low) in Down(db, user, |path|)
    decreases |path|
  {
    if |path| == 1 {
      assert (s.org, s.region) == (s.org, low);
    } else {
      Shorten(db, s.org, path, s.region);
      PathIsDown(db, user, s, path[1], path[1..]);
      var d := (s.org, path[1]);
      assert d in Down(db, user, |path| - 1);
      assert InOrg(db, d.0, low) && db.regions[low].parent == Some(d.1);
    }
  }

  /** Whatever the rows, the walk down finds every workspace that the walk up accepts. */
  lemma UpIsDown(db: Db, user: Id, workspace: Workspace)
    requires IsWorkspaceInRegionalScope(db, user, workspace)
    ensures DownHits(db, user, workspace)
  {
    var s :| s in Scopes(db, user) && s.org == workspace.org &&
             s.region in Up(db, workspace.org, workspace.region.value, MAX_REGION_DEPTH);
    UpIsPath(db, s.org, workspace.region.value, s.region, MAX_REGION_DEPTH);
    var path :| |path| <= MAX_REGION_DEPTH && Joins(db, s.org, path, workspace.region.value, s.region);
    PathIsDown(db, user, s, workspace.region.value, path);
    assert (s.org, user) in db.roles;
  }

  /** Every scope that counts names a region of its own organization, the organization's id is not
      empty, and neither is any id at or below the region. */
  predicate WellScoped(db: Db, user: Id) {
    forall s :: s in Scopes(db, user) ==>
      s.org != "" && InOrg(db, s.org, s.region) && s.region !in Up(db, s.org, "", MAX_REGION_DEPTH)
  }

  lemma DownIsUp(db: Db, user: Id, workspace: Workspace)
    requires WellScoped(db, user) && DownHits(db, user, workspace)
    ensures IsWorkspaceInRegionalScope(db, user, workspace)
  {
    var low := workspace.region.value;
    var k :| 0 < k <= MAX_REGION_DEPTH && (workspace.org, low) in Down(db, user, k);
    var s, path := DownHasPath(db, user, workspace.org, low, k);
    UpIsPath(db, workspace.org, low, s.region, MAX_REGION_DEPTH);
  }

  /** The upward check accepts a workspace exactly when the downward list holds its id. */
  lemma WalksAgree(db: Db, user: Id, id: Id)
    requires WellScoped(db, user) && id in db.workspaces
    ensures IsWorkspaceInRegionalScope(db, user, db.workspaces[id]) <==> id in RegionalWorkspaceIds(db, user)
  {
    if IsWorkspaceInRegionalScope(db, user, db.workspaces[id]) {
      UpIsDown(db, user, db.workspaces[id]);
    } else if DownHits(db, user, db.workspaces[id]) {
      DownIsUp(db, user, db.workspaces[id]);
    }
  }

  predicate Agree(db: Db, user: Id, workspace: Workspace) {
    IsWorkspaceInRegionalScope(db, user, workspace) <==> DownHits(db, user, workspace)
  }

  /** The two walks agree on every workspace there could be exactly when the user's scopes are in
      order, or there is no user. */
  lemma AgreeExactly(db: Db, user: Id)
    ensures (forall w: Workspace :: Agree(db, user, w)) <==> user == "" || WellScoped(db, user)
  {
    if user == "" {
    } else if WellScoped(db, user) {
      forall w: Workspace
        ensures Agree(db, user, w)
      {
        if IsWorkspaceInRegionalScope(db, user, w) {
          UpIsDown(db, user, w);
        } else if DownHits(db, user, w) {
          DownIsUp(db, user, w);
        }
      }
    } else {
      var w := Disagreement(db, user);
      assert !Agree(db, user, w);
    }
  }

  /** A scope that is not in order lets the walk down find something the walk up refuses. */
  lemma Disagreement(db: Db, user: Id) returns (w: Workspace)
    requires user != "" && !WellScoped(db, user)
    ensures DownHits(db, user, w) && !IsWorkspaceInRegionalScope(db, user, w)
  {
    var s :| s in Scopes(db, user) && (s.org == "" || !InOrg(db, s.org, s.region) || s.region in Up(db, s.org, "", MAX_REGION_DEPTH));
    assert (s.org, user) in db.roles;
    if s.org == "" || !InOrg(db, s.org, s.region) {
      w := Workspace(s.org, Some(s.region));
      assert (s.org, s.region) in Down(db, user, 1);
    } else {
      w := Workspace(s.org, Some(""));
      var path := UpHasPath(db, s.org, "", s.region, MAX_REGION_DEPTH);
      PathIsDown(db, user, s, "", path);
    }
  }

  /** A scope on another organization's region: the walk down lists the workspace, the walk up
      refuses it. */
  lemma ForeignScope()
    ensures var db := Db(map["r" := Region("other", None, 0)], map[], {Scope("org", "user", "r")},
                         map[("org", "user") := REGIONAL_VIEWER]);
            var w := Workspace("org", Some("r"));
            DownHits(db, "user", w) && !IsWorkspaceInRegionalScope(db, "user", w)
  {
    var s := Scope("org", "user", "r");
    var db := Db(map["r" := Region("other", None, 0)], map[], {s}, map[("org", "user") := REGIONAL_VIEWER]);
    assert s in Scopes(db, "user");
    assert (s.org, s.region) in Down(db, "user", 1);
    assert ("org", "user") in db.roles;
  }

  // ----- The depth limit ------------------------------------------------------------------------

  /** Levels are among the four, and a parent's is strictly higher than its child's. */
  ghost predicate LevelsRise(db: Db, org: Id) {
    (forall id :: InOrg(db, org, id) ==> 0 <= db.regions[id].level < 4) &&
    forall id, parent :: InOrg(db, org, id) && InOrg(db, org, parent) && db.regions[id].parent == Some(parent)
                         ==> db.regions[parent].level < db.regions[id].level
  }

  lemma {:induction false} PathIsShort(db: Db, org: Id, path: seq<Id>)
    requires LevelsRise(db, org) && IsPath(db, org, path)
    ensures |path| <= db.regions[path[0]].level + 1
    decreases |path|
  {
    if |path| > 1 {
      Shorten(db, org, path, path[|path| - 1]);
      PathIsShort(db, org, path[1..]);
      assert InOrg(db, org, path[0]) && InOrg(db, org, path[1]);
    }
  }

  /** With strictly rising levels a workspace is in scope exactly when some scope of the user is
      its region or an ancestor, however far above: four steps lose no ancestor. */
  lemma DepthLosesNothing(db: Db, user: Id, workspace: Workspace)
    requires LevelsRise(db, workspace.org)
    ensures IsWorkspaceInRegionalScope(db, user, workspace) <==>
            IsNamed(user, workspace) && exists s, path :: s in Scopes(db, user) && s.org == workspace.org &&
                                                          Joins(db, s.org, path, workspace.region.value, s.region)
  {
    if IsNamed(user, workspace) {
      var low := workspace.region.value;
      if IsWorkspaceInRegionalScope(db, user, workspace) {
        var s :| s in Scopes(db, user) && s.org == workspace.org && s.region in Up(db, s.org, low, MAX_REGION_DEPTH);
        UpIsPath(db, s.org, low, s.region, MAX_REGION_DEPTH);
      }
      if s, path :| s in Scopes(db, user) && s.org == workspace.org && Joins(db, s.org, path, low, s.region) {
        PathIsShort(db, s.org, path);
        assert InOrg(db, s.org, path[0]);
        UpIsPath(db, s.org, low, s.region, MAX_REGION_DEPTH);
      }
    }
  }
}
