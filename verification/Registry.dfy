/**
 The project and workspace registry of the local configuration: backfill on load, validation, and
 the operations of the command line and the agent on it. Paths are strings; what Git and the file
 system say about a path is a parameter of the operation.
 */
module Registry {
  import opened Common
  import opened Order

  datatype WorkspaceState = Active | Inactive | Stale

  datatype Workspace = Workspace(id: string, projectId: string, deviceId: string, path: string, platform: string,
                                 state: WorkspaceState, head: Option<string>, checkpoint: Option<string>)

  datatype Project = Project(id: string, name: string, path: string, workspaces: map<string, Workspace>,
                             manifest: Option<string>, remote: Option<string>, root: Option<string>)

  type Projects = map<string, Project>

  datatype Config = Config(deviceId: string, projects: Projects)

  const PREFIX: string := "w_"

  type WorkspaceId = s: string | PREFIX <= s witness PREFIX

  /** `workspace_id_for`: project id, device id and path to an id. */
  type IdFor = (string, string, string) -> WorkspaceId

  // ---------------------------------------------------------------- validation

  predicate ProjectValid(key: string, p: Project) {
    && key != "" && p.id != "" && p.name != "" && key == p.id && p.path != ""
    && forall w :: w in p.workspaces ==> WorkspaceValid(p, w, p.workspaces[w])
  }

  predicate WorkspaceValid(p: Project, key: string, w: Workspace) {
    && key != "" && w.id != "" && PREFIX <= w.id && key == w.id
    && w.projectId == p.id && w.deviceId != "" && w.platform != "" && w.path != ""
  }

  predicate Validates(c: Config) {
    c.deviceId != "" && forall k :: k in c.projects ==> ProjectValid(k, c.projects[k])
  }

  // ---------------------------------------------------------------- loading

  function Backfilled(idFor: IdFor, deviceId: string, p: Project): Project {
    if p.workspaces == map[] && p.path != "" then
      var id := idFor(p.id, deviceId, p.path);
      p.(workspaces := map[id := Workspace(id, p.id, deviceId, p.path, "unknown", Active, None, None)])
    else p
  }

  function BackfillOf(idFor: IdFor, deviceId: string): Project -> Project {
    (p: Project) => Backfilled(idFor, deviceId, p)
  }

  function MapValues<V>(m: map<string, V>, f: V -> V): map<string, V> {
    map k | k in m :: f(m[k])
  }

  function Loaded(idFor: IdFor, c: Config): Config {
    c.(projects := MapValues(c.projects, BackfillOf(idFor, c.deviceId)))
  }

  // ---------------------------------------------------------------- lookups

  /** The workspace under these two keys lies at the path. */
  predicate Claims(projects: Projects, path: string, k: string, w: string) {
    k in projects && w in projects[k].workspaces && projects[k].workspaces[w].path == path
  }

  predicate HoldsEmpty(projects: Projects, path: string, k: string) {
    k in projects && projects[k].workspaces == map[] && projects[k].path == path
  }

  ghost predicate Registered(projects: Projects, path: string) {
    (exists k, w :: Claims(projects, path, k, w)) || (exists k :: HoldsEmpty(projects, path, k))
  }

  function FirstAt(workspaces: map<string, Workspace>, keys: seq<string>, paths: seq<string>): (w: Option<string>)
    requires forall k :: k in keys ==> k in workspaces
    ensures w.Some? ==> w.value in workspaces && workspaces[w.value].path in paths
    ensures w.None? ==> forall k :: k in keys ==> workspaces[k].path !in paths
  {
    if keys == [] then None
    else
      assert keys[0] in keys;
      if workspaces[keys[0]].path in paths then Some(keys[0])
      else
        assert forall k :: k in keys[1..] ==> k in keys;
        FirstAt(workspaces, keys[1..], paths)
  }

  /** The first workspace, in key order, at one of the paths. */
  function FirstClaim(projects: Projects, keys: seq<string>, paths: seq<string>): (claim: Option<(string, string)>)
    requires forall k :: k in keys ==> k in projects
    ensures claim.Some? ==> exists path :: path in paths && Claims(projects, path, claim.value.0, claim.value.1)
    ensures claim.None? ==>
              forall k, w :: k in keys && w in projects[k].workspaces ==> projects[k].workspaces[w].path !in paths
  {
    if keys == [] then None
    else
      assert keys[0] in keys;
      var ws := projects[keys[0]].workspaces;
      match FirstAt(ws, SortedKeys(ws.Keys), paths)
      case Some(w) =>
        assert Claims(projects, ws[w].path, keys[0], w);
        Some((keys[0], w))
      case None =>
        assert forall k :: k in keys[1..] ==> k in keys;
        FirstClaim(projects, keys[1..], paths)
  }

  function FirstWithId(projects: Projects, keys: seq<string>, id: string): (k: Option<string>)
    requires forall k :: k in keys ==> k in projects
    ensures k.Some? ==> k.value in projects && id in projects[k.value].workspaces
    ensures k.None? ==> forall key :: key in keys ==> id !in projects[key].workspaces
  {
    if keys == [] then None
    else
      assert keys[0] in keys;
      if id in projects[keys[0]].workspaces then Some(keys[0])
      else
        assert forall k :: k in keys[1..] ==> k in keys;
        FirstWithId(projects, keys[1..], id)
  }

  /** `find_workspace_ids`: by id first, then by one of the paths the argument may denote. */
  function FindWorkspace(projects: Projects, query: string, paths: seq<string>): (found: Option<(string, string)>)
    ensures found.Some? ==> found.value.0 in projects && found.value.1 in projects[found.value.0].workspaces
  {
    match FirstWithId(projects, SortedKeys(projects.Keys), query)
    case Some(k) => Some((k, query))
    case None => FirstClaim(projects, SortedKeys(projects.Keys), paths)
  }

  // ---------------------------------------------------------------- operations

  function OrElse(a: Option<string>, b: Option<string>): Option<string> {
    if a.None? then b else a
  }

  function Merged(projects: Projects, e: Project): Projects {
    if e.id in projects then
      var p := projects[e.id];
      projects[e.id := p.(workspaces := p.workspaces + e.workspaces, manifest := OrElse(p.manifest, e.manifest),
                          remote := OrElse(p.remote, e.remote), root := OrElse(p.root, e.root))]
    else projects[e.id := e]
  }

  /** What is known of a checkout that is being added. */
  datatype Checkout = Checkout(projectId: string, name: string, path: string, platform: string, head: Option<string>,
                               manifest: Option<string>, remote: Option<string>, root: Option<string>)

  function NewWorkspace(idFor: IdFor, deviceId: string, projectId: string, path: string, platform: string,
                        head: Option<string>): Workspace {
    Workspace(idFor(projectId, deviceId, path), projectId, deviceId, path, platform, Active, head, None)
  }

  function BuiltEntry(idFor: IdFor, deviceId: string, at: Checkout): Project {
    var w := NewWorkspace(idFor, deviceId, at.projectId, at.path, at.platform, at.head);
    Project(at.projectId, at.name, at.path, map[w.id := w], at.manifest, at.remote, at.root)
  }

  function WithWorkspace(projects: Projects, k: string, w: Workspace): Projects
    requires k in projects
  {
    projects[k := projects[k].(workspaces := projects[k].workspaces[w.id := w])]
  }

  function Without(projects: Projects, k: string, w: string): Projects
    requires k in projects && w in projects[k].workspaces
  {
    var p, rest := projects[k], projects[k].workspaces - {w};
    var path := if p.path == p.workspaces[w].path && rest != map[] then rest[FirstKey(rest)].path else p.path;
    projects[k := p.(workspaces := rest, path := path)]
  }

  lemma NoKeysNoEntries(m: map<string, Workspace>)
    ensures m.Keys == {} ==> m == map[]
  {
    if m.Keys == {} {
      assert m == map[];
    }
  }

  function FirstKey(m: map<string, Workspace>): (k: string)
    requires m != map[]
    ensures k in m
  {
    StringOrder();
    NoKeysNoEntries(m);
    Least(STRING_LESS, m.Keys)
  }

  type NextState = Workspace -> WorkspaceState

  function UpdateWorkspace(next: NextState): Workspace -> Workspace {
    (w: Workspace) => w.(state := next(w))
  }

  function UpdateProjectOf(next: NextState): Project -> Project {
    (p: Project) => p.(workspaces := MapValues(p.workspaces, UpdateWorkspace(next)))
  }

  function Updated(projects: Projects, next: NextState): Projects {
    MapValues(projects, UpdateProjectOf(next))
  }

  /** `refresh_workspace_states`, for the paths that exist. */
  function Refreshed(existing: set<string>): NextState {
    (w: Workspace) => if w.path in existing then (if w.state == Stale then Active else w.state) else Stale
  }

  /** `mark_handoff_workspace_states`. */
  function HandedOff(source: string, target: string): NextState {
    (w: Workspace) => if w.path == source then Inactive else if w.path == target then Active else w.state
  }

  /** `find_project`: by id first, then by display name. */
  function FirstNamed(projects: Projects, keys: seq<string>, name: string): (k: Option<string>)
    requires forall k :: k in keys ==> k in projects
    ensures k.Some? ==> k.value in projects
  {
    if keys == [] then None
    else
      assert keys[0] in keys;
      if projects[keys[0]].name == name then Some(keys[0])
      else
        assert forall k :: k in keys[1..] ==> k in keys;
        FirstNamed(projects, keys[1..], name)
  }

  function FindProject(projects: Projects, query: string): (k: Option<string>)
    ensures k.Some? ==> k.value in projects
  {
    if query in projects then Some(query) else FirstNamed(projects, SortedKeys(projects.Keys), query)
  }

  // ---------------------------------------------------------------- the mutable registry

  class LocalConfig {
    const idFor: IdFor
    var deviceId: string
    var projects: Projects

    function State(): Config
      reads this
    {
      Config(deviceId, projects)
    }

    constructor (idFor: IdFor, c: Config)
      ensures this.idFor == idFor && State() == c
    {
      this.idFor := idFor;
      deviceId, projects := c.deviceId, c.projects;
    }

    method BackfillLegacyWorkspaces()
      modifies this`projects
      ensures State() == Loaded(idFor, old(State()))
    {
      SortedKeysDistinct(projects.Keys);
      BackfillInOrder(SortedKeys(projects.Keys), deviceId);
    }

    method BackfillInOrder(keys: seq<string>, device: string)
      requires Distinct(keys) && forall k :: k in keys <==> k in projects
      modifies this`projects
      ensures projects == MapValues(old(projects), BackfillOf(idFor, device))
    {
      ghost var before, f := projects, BackfillOf(idFor, device);
      var i := 0;
      while i < |keys|
        invariant 0 <= i <= |keys|
        invariant PartMapped(before, projects, keys[..i], f)
      {
        PartStep(before, projects, keys, i, f);
        var p := BackfillProject(device, projects[keys[i]]);
        projects := projects[keys[i] := p];
        i := i + 1;
      }
      assert keys[..i] == keys;
      PartDone(before, projects, keys, f);
    }

    method BackfillProject(device: string, p: Project) returns (q: Project)
      ensures q == Backfilled(idFor, device, p)
    {
      q := p;
      if p.workspaces == map[] && p.path != "" {
        var id := idFor(p.id, device, p.path);
        q := p.(workspaces := map[id := Workspace(id, p.id, device, p.path, "unknown", Active, None, None)]);
      }
    }

    /** Passes exactly when no workspace and no empty project has the path. */
    method EnsureWorkspaceNotRegistered(path: string) returns (ok: bool)
      ensures ok <==> !Registered(projects, path)
    {
      var keys := SortedKeys(projects.Keys);
      RegisteredExactly(projects, keys, path);
      var claim := FirstClaim(projects, keys, [path]);
      if claim.Some? {
        return false;
      }
      var empty := EmptyProjectAt(keys, path);
      return !empty;
    }

    method EmptyProjectAt(keys: seq<string>, path: string) returns (found: bool)
      requires forall j :: 0 <= j < |keys| ==> keys[j] in projects
      ensures found <==> exists j :: 0 <= j < |keys| && HoldsEmpty(projects, path, keys[j])
    {
      var i := 0;
      while i < |keys|
        invariant 0 <= i <= |keys|
        invariant forall j :: 0 <= j < i ==> !HoldsEmpty(projects, path, keys[j])
      {
        var p := projects[keys[i]];
        if p.workspaces == map[] && p.path == path {
          assert HoldsEmpty(projects, path, keys[i]);
          return true;
        }
        i := i + 1;
      }
      return false;
    }

    method MergeProjectRegistryEntry(e: Project)
      modifies this`projects
      ensures projects == Merged(old(projects), e)
    {
      if e.id in projects {
        var existing := projects[e.id];
        existing := existing.(workspaces := existing.workspaces + e.workspaces);
        if existing.manifest.None? {
          existing := existing.(manifest := e.manifest);
        }
        if existing.remote.None? {
          existing := existing.(remote := e.remote);
        }
        if existing.root.None? {
          existing := existing.(root := e.root);
        }
        projects := projects[e.id := existing];
      } else {
        projects := projects[e.id := e];
      }
    }

    /** The registered workspace, or None when the path is taken or the project unknown. */
    method RegisterRecoveryWorkspace(projectId: string, root: string, platform: string, head: Option<string>)
      returns (registered: Option<Workspace>)
      modifies this`projects
      ensures registered.Some? <==> !Registered(old(projects), root) && projectId in old(projects)
      ensures match registered
              case None => projects == old(projects)
              case Some(w) => && w == NewWorkspace(idFor, deviceId, projectId, root, platform, head)
                              && projectId in old(projects) && projects == WithWorkspace(old(projects), projectId, w)
    {
      var free := EnsureWorkspaceNotRegistered(root);
      if !free {
        return None;
      }
      var id := idFor(projectId, deviceId, root);
      var workspace := Workspace(id, projectId, deviceId, root, platform, Active, head, None);
      if projectId !in projects {
        return None;
      }
      var p := projects[projectId];
      p := p.(workspaces := p.workspaces[id := workspace]);
      projects := projects[projectId := p];
      return Some(workspace);
    }

    /** `find_workspace_ids`: a loop over the projects for the id, then one over all workspaces for
        a path. */
    method FindWorkspaceIds(query: string, paths: seq<string>) returns (found: Option<(string, string)>)
      ensures found == FindWorkspace(projects, query, paths)
    {
      var keys := SortedKeys(projects.Keys);
      var i := 0;
      while i < |keys|
        invariant 0 <= i <= |keys|
        invariant FirstWithId(projects, keys, query) == FirstWithId(projects, keys[i..], query)
      {
        assert keys[i..][1..] == keys[i + 1..];
        if query in projects[keys[i]].workspaces {
          return Some((keys[i], query));
        }
        i := i + 1;
      }
      i := 0;
      while i < |keys|
        invariant 0 <= i <= |keys|
        invariant FirstClaim(projects, keys, paths) == FirstClaim(projects, keys[i..], paths)
      {
        assert keys[i..][1..] == keys[i + 1..];
        var here := FindAtPath(projects[keys[i]].workspaces, paths);
        if here.Some? {
          return Some((keys[i], here.value));
        }
        i := i + 1;
      }
      return None;
    }

    /** The removed workspace, or None when nothing matches. */
    method RemoveWorkspace(query: string, paths: seq<string>) returns (removed: Option<Workspace>)
      modifies this`projects
      ensures var found := FindWorkspace(old(projects), query, paths);
              match found
              case None => removed.None? && projects == old(projects)
              case Some((k, w)) =>
                removed == Some(old(projects)[k].workspaces[w]) && projects == Without(old(projects), k, w)
    {
      var found := FindWorkspaceIds(query, paths);
      if found.None? {
        return None;
      }
      var k, w := found.value.0, found.value.1;
      var p := projects[k];
      var workspace := p.workspaces[w];
      p := p.(workspaces := p.workspaces - {w});
      if p.path == workspace.path && p.workspaces != map[] {
        p := p.(path := p.workspaces[FirstKey(p.workspaces)].path);
      }
      projects := projects[k := p];
      return Some(workspace);
    }

    /** The two loops over all workspaces, with the state each one computes; whether one changed. */
    method UpdateStates(next: NextState) returns (changed: bool)
      modifies this`projects
      ensures projects == Updated(old(projects), next)
      ensures changed <==> projects != old(projects)
    {
      SortedKeysDistinct(projects.Keys);
      changed := UpdateInOrder(SortedKeys(projects.Keys), next);
    }

    method UpdateInOrder(keys: seq<string>, next: NextState) returns (changed: bool)
      requires Distinct(keys) && forall k :: k in keys <==> k in projects
      modifies this`projects
      ensures projects == Updated(old(projects), next)
      ensures changed <==> projects != old(projects)
    {
      ghost var before, f := projects, UpdateProjectOf(next);
      changed := false;
      var i := 0;
      while i < |keys|
        invariant 0 <= i <= |keys|
        invariant PartMapped(before, projects, keys[..i], f)
        invariant changed <==> projects != before
      {
        PartRound(before, projects, keys, i, f);
        var p, changedHere := UpdateProject(projects[keys[i]], next);
        changed := changed || changedHere;
        projects := projects[keys[i] := p];
        i := i + 1;
      }
      assert keys[..i] == keys;
      PartDone(before, projects, keys, f);
    }
  }

  /** The inner loop of a lookup by path. */
  method FindAtPath(workspaces: map<string, Workspace>, paths: seq<string>) returns (here: Option<string>)
    ensures here == FirstAt(workspaces, SortedKeys(workspaces.Keys), paths)
  {
    var ids := SortedKeys(workspaces.Keys);
    var i := 0;
    while i < |ids|
      invariant 0 <= i <= |ids|
      invariant FirstAt(workspaces, ids, paths) == FirstAt(workspaces, ids[i..], paths)
    {
      assert ids[i..][1..] == ids[i + 1..];
      if workspaces[ids[i]].path in paths {
        return Some(ids[i]);
      }
      i := i + 1;
    }
    return None;
  }

  method UpdateProject(p: Project, next: NextState) returns (q: Project, changed: bool)
    ensures q == UpdateProjectOf(next)(p)
    ensures changed <==> q != p
  {
    var keys := SortedKeys(p.workspaces.Keys);
    SortedKeysDistinct(p.workspaces.Keys);
    var workspaces := p.workspaces;
    ghost var f := UpdateWorkspace(next);
    changed := false;
    var i := 0;
    while i < |keys|
      invariant 0 <= i <= |keys|
      invariant PartMapped(p.workspaces, workspaces, keys[..i], f)
      invariant changed <==> workspaces != p.workspaces
    {
      PartRound(p.workspaces, workspaces, keys, i, f);
      var w := workspaces[keys[i]];
      var nextState := next(w);
      if w.state != nextState {
        w := w.(state := nextState);
        changed := true;
      }
      workspaces := workspaces[keys[i] := w];
      i := i + 1;
    }
    assert keys[..i] == keys;
    PartDone(p.workspaces, workspaces, keys, f);
    q := p.(workspaces := workspaces);
  }

  lemma RegisteredExactly(projects: Projects, keys: seq<string>, path: string)
    requires forall k :: k in keys <==> k in projects
    ensures Registered(projects, path)
            <==> (|| FirstClaim(projects, keys, [path]).Some?
                  || exists j :: 0 <= j < |keys| && HoldsEmpty(projects, path, keys[j]))
  {
    var claim := FirstClaim(projects, keys, [path]);
    if claim.Some? {
      assert Claims(projects, path, claim.value.0, claim.value.1);
    }
    if k :| HoldsEmpty(projects, path, k) {
      assert k in keys;
    }
  }

  // ---------------------------------------------------------------- updating a map in key order

  /** The done keys have their new values, the others their old ones. */
  ghost predicate PartMapped<V>(before: map<string, V>, now: map<string, V>, done: seq<string>, f: V -> V) {
    && now.Keys == before.Keys
    && forall k :: k in before ==> now[k] == if k in done then f(before[k]) else before[k]
  }

  lemma PartStep<V>(before: map<string, V>, now: map<string, V>, keys: seq<string>, i: nat, f: V -> V)
    requires i < |keys| && Distinct(keys) && (forall k :: k in keys ==> k in before)
    requires PartMapped(before, now, keys[..i], f)
    ensures keys[i] in now && now[keys[i]] == before[keys[i]]
    ensures PartMapped(before, now[keys[i] := f(now[keys[i]])], keys[..i + 1], f)
  {
    assert keys[i] in keys && keys[..i + 1] == keys[..i] + [keys[i]];
  }

  lemma PartDone<V>(before: map<string, V>, now: map<string, V>, keys: seq<string>, f: V -> V)
    requires (forall k :: k in before ==> k in keys) && PartMapped(before, now, keys, f)
    ensures now == MapValues(before, f)
  {
  }

  lemma PartRound<V>(before: map<string, V>, now: map<string, V>, keys: seq<string>, i: nat, f: V -> V)
    requires i < |keys| && Distinct(keys) && (forall k :: k in keys ==> k in before)
    requires PartMapped(before, now, keys[..i], f)
    ensures keys[i] in now
    ensures var k := keys[i];
            var after := now[k := f(now[k])];
            && PartMapped(before, after, keys[..i + 1], f)
            && (after != before <==> now != before || f(now[k]) != now[k])
  {
    PartStep(before, now, keys, i, f);
    PartChange(before, now, keys[i], f(now[keys[i]]));
  }

  lemma PartChange<V>(before: map<string, V>, now: map<string, V>, k: string, v: V)
    requires k in now && k in before && now[k] == before[k]
    ensures now[k := v] != before <==> now != before || v != before[k]
    ensures v == now[k] ==> now[k := v] == now
  {
    var after := now[k := v];
    assert after[k] == v;
    if v == before[k] {
      assert after == now;
    }
  }
}
