/**
 What the registry's operations keep together: one owner per path, keys that are ids, and a
 project path that is one of its workspaces' paths, over every run of load, operation and save.
 */
module RegistryRuns {
  import opened Common
  import opened Registry

  // ---------------------------------------------------------------- a good configuration

  ghost predicate OneOwner(ps: Projects) {
    forall path, k, w, k', w' :: Claims(ps, path, k, w) && Claims(ps, path, k', w') ==> k == k' && w == w'
  }

  /** The project's own path is the path of one of its workspaces. */
  ghost predicate PathOwned(ps: Projects, k: string) {
    k in ps && exists w :: Claims(ps, ps[k].path, k, w)
  }

  predicate HasDerivedId(idFor: IdFor, w: Workspace) {
    w.id == idFor(w.projectId, w.deviceId, w.path)
  }

  ghost predicate IdsDerived(idFor: IdFor, ps: Projects) {
    forall k, w :: k in ps && w in ps[k].workspaces ==> HasDerivedId(idFor, ps[k].workspaces[w])
  }

  ghost predicate Good(idFor: IdFor, c: Config) {
    && Validates(c) && OneOwner(c.projects) && IdsDerived(idFor, c.projects)
    && forall k :: k in c.projects ==> PathOwned(c.projects, k)
  }

  lemma GoodHasNoEmpty(idFor: IdFor, c: Config)
    requires Good(idFor, c)
    ensures forall k :: k in c.projects ==> c.projects[k].workspaces != map[]
  {
    forall k | k in c.projects ensures c.projects[k].workspaces != map[] {
      assert PathOwned(c.projects, k);
    }
  }

  /** Saving a good configuration succeeds and loading it back gives it unchanged. */
  lemma GoodSurvivesSaveAndLoad(idFor: IdFor, c: Config)
    requires Good(idFor, c)
    ensures Validates(c) && Loaded(idFor, c) == c
  {
    GoodHasNoEmpty(idFor, c);
  }

  /** Loading twice is loading once. */
  lemma LoadIsIdempotent(idFor: IdFor, c: Config)
    ensures Loaded(idFor, Loaded(idFor, c)) == Loaded(idFor, c)
  {
    var once := Loaded(idFor, c);
    forall k | k in c.projects ensures Backfilled(idFor, c.deviceId, once.projects[k]) == once.projects[k] {
      var p := c.projects[k];
      if p.workspaces == map[] && p.path != "" {
        assert idFor(p.id, c.deviceId, p.path) in once.projects[k].workspaces;
      }
    }
  }

  /** In a good configuration a path lookup does not depend on the order of iteration. */
  lemma LookupIsOrderIndependent(ps: Projects, keys: seq<string>, others: seq<string>, path: string)
    requires OneOwner(ps)
    requires (forall k :: k in keys <==> k in ps) && (forall k :: k in others <==> k in ps)
    ensures FirstClaim(ps, keys, [path]) == FirstClaim(ps, others, [path])
  {
    var x, y := FirstClaim(ps, keys, [path]), FirstClaim(ps, others, [path]);
    if x.Some? {
      assert Claims(ps, path, x.value.0, x.value.1);
    }
    if y.Some? {
      assert Claims(ps, path, y.value.0, y.value.1);
    }
  }

  // ---------------------------------------------------------------- inserting a workspace

  /** The new id does not collide with that of another path in the project. */
  ghost predicate NewIdDistinguished(idFor: IdFor, c: Config, k: string, path: string) {
    k in c.projects ==>
      forall w :: w in c.projects[k].workspaces ==>
        var x := c.projects[k].workspaces[w];
        idFor(k, c.deviceId, path) == idFor(x.projectId, x.deviceId, x.path) ==> x.path == path
  }

  lemma NewIdIsNew(idFor: IdFor, c: Config, k: string, path: string)
    requires Good(idFor, c) && k in c.projects && NewIdDistinguished(idFor, c, k, path)
    requires !Registered(c.projects, path)
    ensures idFor(k, c.deviceId, path) !in c.projects[k].workspaces
  {
    var id := idFor(k, c.deviceId, path);
    if id in c.projects[k].workspaces {
      var x := c.projects[k].workspaces[id];
      assert ProjectValid(k, c.projects[k]) && WorkspaceValid(c.projects[k], id, x);
      assert HasDerivedId(idFor, x);
      assert Claims(c.projects, path, k, id);
    }
  }

  /** The project with one workspace more; manifest and fingerprints are free. */
  predicate Inserts(p: Project, q: Project, w: Workspace) {
    q.id == p.id && q.name == p.name && q.path == p.path && q.workspaces == p.workspaces[w.id := w]
  }

  lemma ClaimsAfterInsert(ps: Projects, k: string, q: Project, w: Workspace, path: string, k': string, w': string)
    requires k in ps && Inserts(ps[k], q, w) && w.id !in ps[k].workspaces
    ensures Claims(ps[k := q], path, k', w') <==> Claims(ps, path, k', w') || (k' == k && w' == w.id && path == w.path)
  {
  }

  lemma InsertKeepsOneOwner(ps: Projects, k: string, q: Project, w: Workspace)
    requires k in ps && Inserts(ps[k], q, w) && w.id !in ps[k].workspaces
    requires OneOwner(ps) && !Registered(ps, w.path)
    ensures OneOwner(ps[k := q])
  {
    var after := ps[k := q];
    forall path, k1, w1, k2, w2 | Claims(after, path, k1, w1) && Claims(after, path, k2, w2)
      ensures k1 == k2 && w1 == w2
    {
      ClaimsAfterInsert(ps, k, q, w, path, k1, w1);
      ClaimsAfterInsert(ps, k, q, w, path, k2, w2);
    }
  }

  lemma InsertKeepsPathOwned(ps: Projects, k: string, q: Project, w: Workspace, j: string)
    requires k in ps && Inserts(ps[k], q, w) && w.id !in ps[k].workspaces && PathOwned(ps, j)
    ensures PathOwned(ps[k := q], j)
  {
    var x :| Claims(ps, ps[j].path, j, x);
    ClaimsAfterInsert(ps, k, q, w, ps[j].path, j, x);
    assert Claims(ps[k := q], ps[k := q][j].path, j, x);
  }

  /** A new workspace at an unregistered path keeps the configuration good exactly when its own
      fields are valid. */
  lemma InsertKeepsGoodExactly(idFor: IdFor, c: Config, k: string, q: Project, path: string, platform: string,
          head: Option<string>)
    requires Good(idFor, c) && k in c.projects && NewIdDistinguished(idFor, c, k, path) && !Registered(c.projects, path)
    requires Inserts(c.projects[k], q, NewWorkspace(idFor, c.deviceId, k, path, platform, head))
    ensures Good(idFor, c.(projects := c.projects[k := q])) <==> path != "" && platform != ""
  {
    var w := NewWorkspace(idFor, c.deviceId, k, path, platform, head);
    var ps, after := c.projects, c.projects[k := q];
    NewIdIsNew(idFor, c, k, path);
    InsertKeepsOneOwner(ps, k, q, w);
    forall j | j in after ensures PathOwned(after, j) {
      InsertKeepsPathOwned(ps, k, q, w, j);
    }
    InsertValidExactly(idFor, c, k, q, path, platform, head);
    assert IdsDerived(idFor, after);
  }

  lemma InsertValidExactly(idFor: IdFor, c: Config, k: string, q: Project, path: string, platform: string,
          head: Option<string>)
    requires Validates(c) && k in c.projects
    requires Inserts(c.projects[k], q, NewWorkspace(idFor, c.deviceId, k, path, platform, head))
    ensures Validates(c.(projects := c.projects[k := q])) <==> path != "" && platform != ""
  {
    var w := NewWorkspace(idFor, c.deviceId, k, path, platform, head);
    assert ProjectValid(k, c.projects[k]);
    assert WorkspaceValid(q, w.id, w) <==> path != "" && platform != "";
    assert q.workspaces[w.id] == w;
    var after := c.projects[k := q];
    if path != "" && platform != "" {
      forall x | x in q.workspaces ensures WorkspaceValid(q, x, q.workspaces[x]) {
        if x != w.id {
          assert WorkspaceValid(c.projects[k], x, c.projects[k].workspaces[x]);
        }
      }
      assert ProjectValid(k, q);
      forall j | j in after ensures ProjectValid(j, after[j]) {
      }
    } else {
      assert !ProjectValid(k, after[k]);
    }
  }

  /** The checkout's fields that validation looks at; an existing project keeps its own id and name. */
  predicate CheckoutValid(c: Config, at: Checkout) {
    at.path != "" && at.platform != "" && (at.projectId in c.projects || (at.projectId != "" && at.name != ""))
  }

  function Added(idFor: IdFor, c: Config, at: Checkout): Config {
    c.(projects := Merged(c.projects, BuiltEntry(idFor, c.deviceId, at)))
  }

  lemma FreshValidExactly(idFor: IdFor, c: Config, at: Checkout)
    requires Validates(c) && at.projectId !in c.projects
    ensures Validates(Added(idFor, c, at)) <==> CheckoutValid(c, at)
  {
    var e, k := BuiltEntry(idFor, c.deviceId, at), at.projectId;
    var after := c.projects[k := e];
    var id := idFor(k, c.deviceId, at.path);
    assert e.workspaces[id] == NewWorkspace(idFor, c.deviceId, k, at.path, at.platform, at.head);
    assert WorkspaceValid(e, id, e.workspaces[id]) <==> at.path != "" && at.platform != "" && id != "";
    assert ProjectValid(k, e) <==> CheckoutValid(c, at);
    assert after[k] == e;
  }

  lemma AddValidExactly(idFor: IdFor, c: Config, at: Checkout)
    requires Validates(c)
    ensures Validates(Added(idFor, c, at)) <==> CheckoutValid(c, at)
  {
    var k := at.projectId;
    if k in c.projects {
      InsertValidExactly(idFor, c, k, Added(idFor, c, at).projects[k], at.path, at.platform, at.head);
    } else {
      FreshValidExactly(idFor, c, at);
    }
  }

  lemma FreshOneOwner(ps: Projects, e: Project, id: string, path: string)
    requires OneOwner(ps) && !Registered(ps, path) && e.id !in ps
    requires e.workspaces.Keys == {id} && e.workspaces[id].path == path
    ensures OneOwner(ps[e.id := e])
  {
    var after := ps[e.id := e];
    forall p, k, w | Claims(after, p, k, w)
      ensures (k == e.id && w == id && p == path) || (k != e.id && Claims(ps, p, k, w))
    {
    }
  }

  lemma FreshPathOwned(ps: Projects, e: Project, id: string, j: string)
    requires id in e.workspaces && e.workspaces[id].path == e.path && e.id !in ps
    requires j == e.id || PathOwned(ps, j)
    ensures PathOwned(ps[e.id := e], j)
  {
    var after := ps[e.id := e];
    if j == e.id {
      assert Claims(after, e.path, j, id);
    } else {
      var x :| Claims(ps, ps[j].path, j, x);
      assert Claims(after, after[j].path, j, x);
    }
  }

  lemma FreshProjectExactly(idFor: IdFor, c: Config, at: Checkout)
    requires Good(idFor, c) && !Registered(c.projects, at.path) && at.projectId !in c.projects
    ensures Good(idFor, Added(idFor, c, at)) <==> CheckoutValid(c, at)
  {
    var e := BuiltEntry(idFor, c.deviceId, at);
    var id := idFor(at.projectId, c.deviceId, at.path);
    var after := c.projects[e.id := e];
    FreshValidExactly(idFor, c, at);
    FreshOneOwner(c.projects, e, id, at.path);
    forall j | j in after ensures PathOwned(after, j) {
      FreshPathOwned(c.projects, e, id, j);
    }
    assert IdsDerived(idFor, after);
  }

  lemma MergeInserts(idFor: IdFor, c: Config, at: Checkout)
    requires at.projectId in c.projects
    ensures var k, after := at.projectId, Added(idFor, c, at);
            && Inserts(c.projects[k], after.projects[k],
                       NewWorkspace(idFor, c.deviceId, k, at.path, at.platform, at.head))
            && after == c.(projects := c.projects[k := after.projects[k]])
  {
  }

  /** Adding a checkout at an unregistered path keeps the configuration good exactly when its own
      fields are valid. */
  lemma AddKeepsGoodExactly(idFor: IdFor, c: Config, at: Checkout)
    requires Good(idFor, c) && !Registered(c.projects, at.path) && NewIdDistinguished(idFor, c, at.projectId, at.path)
    ensures Good(idFor, Added(idFor, c, at)) <==> CheckoutValid(c, at)
  {
    var k := at.projectId;
    if k in c.projects {
      MergeInserts(idFor, c, at);
      InsertKeepsGoodExactly(idFor, c, k, Added(idFor, c, at).projects[k], at.path, at.platform, at.head);
    } else {
      FreshProjectExactly(idFor, c, at);
    }
  }

  /** Merging into a project keeps its path owned exactly when it was owned before or is the path
      merged in: an empty project with another path breaks it, which loading prevents. */
  lemma MergeKeepsPathOwnedExactly(idFor: IdFor, c: Config, at: Checkout)
    requires Validates(c) && at.projectId in c.projects
    requires idFor(at.projectId, c.deviceId, at.path) !in c.projects[at.projectId].workspaces
    ensures PathOwned(Merged(c.projects, BuiltEntry(idFor, c.deviceId, at)), at.projectId)
            <==> PathOwned(c.projects, at.projectId) || c.projects[at.projectId].path == at.path
  {
    var ps, k := c.projects, at.projectId;
    var w := NewWorkspace(idFor, c.deviceId, k, at.path, at.platform, at.head);
    var after := Merged(ps, BuiltEntry(idFor, c.deviceId, at));
    var q := after[k];
    forall x
      ensures Claims(after, q.path, k, x) <==> Claims(ps, ps[k].path, k, x) || (x == w.id && ps[k].path == at.path)
    {
      ClaimsAfterInsert(ps, k, q, w, ps[k].path, k, x);
    }
    if ps[k].path == at.path {
      assert Claims(after, q.path, k, w.id);
    }
    if PathOwned(ps, k) {
      var x :| Claims(ps, ps[k].path, k, x);
      assert Claims(after, q.path, k, x);
    }
  }

  // ---------------------------------------------------------------- removing

  lemma ClaimsAfterRemoval(ps: Projects, k: string, w: string, path: string, k': string, w': string)
    requires k in ps && w in ps[k].workspaces
    ensures Claims(Without(ps, k, w), path, k', w') <==> Claims(ps, path, k', w') && !(k' == k && w' == w)
  {
  }

  lemma RemovalValidates(c: Config, k: string, w: string)
    requires Validates(c) && k in c.projects && w in c.projects[k].workspaces
    ensures Validates(c.(projects := Without(c.projects, k, w)))
  {
    var p, q := c.projects[k], Without(c.projects, k, w)[k];
    assert ProjectValid(k, p);
    forall x | x in q.workspaces ensures WorkspaceValid(q, x, q.workspaces[x]) {
      assert WorkspaceValid(p, x, p.workspaces[x]);
    }
    assert q.path != "" by {
      if q.path != p.path {
        assert WorkspaceValid(p, FirstKey(q.workspaces), q.workspaces[FirstKey(q.workspaces)]);
      }
    }
  }

  /** A project with another workspace stays good without the removed one. */
  lemma RemovalKeepsGood(idFor: IdFor, c: Config, k: string, w: string)
    requires Good(idFor, c) && k in c.projects && w in c.projects[k].workspaces
    requires c.projects[k].workspaces - {w} != map[]
    ensures Good(idFor, c.(projects := Without(c.projects, k, w)))
  {
    var ps, after := c.projects, Without(c.projects, k, w);
    RemovalValidates(c, k, w);
    forall path, k1, w1, k2, w2 | Claims(after, path, k1, w1) && Claims(after, path, k2, w2)
      ensures k1 == k2 && w1 == w2
    {
      ClaimsAfterRemoval(ps, k, w, path, k1, w1);
      ClaimsAfterRemoval(ps, k, w, path, k2, w2);
    }
    forall j | j in after ensures PathOwned(after, j) {
      assert PathOwned(ps, j);
      var x :| Claims(ps, ps[j].path, j, x);
      if j != k {
        assert Claims(after, after[j].path, j, x);
      } else if ps[k].path == ps[k].workspaces[w].path {
        assert Claims(after, after[k].path, k, FirstKey(after[k].workspaces));
      } else {
        assert Claims(after, after[k].path, k, x);
      }
    }
  }

  /** Removing a project's only workspace leaves an empty project, which the next load fills with a
      workspace at the same path. */
  lemma RemovalOfOnlyComesBack(idFor: IdFor, c: Config, k: string, w: string)
    requires Good(idFor, c) && k in c.projects && w in c.projects[k].workspaces
    requires c.projects[k].workspaces - {w} == map[]
    ensures Good(idFor, Loaded(idFor, c.(projects := Without(c.projects, k, w))))
    ensures var p := c.projects[k];
            var id := idFor(p.id, c.deviceId, p.path);
            && p.workspaces[w].path == p.path
            && Loaded(idFor, c.(projects := Without(c.projects, k, w)))
               == c.(projects := c.projects[k := p.(workspaces :=
                       map[id := Workspace(id, p.id, c.deviceId, p.path, "unknown", Active, None, None)])])
  {
    var ps, p := c.projects, c.projects[k];
    assert PathOwned(ps, k);
    var x :| Claims(ps, p.path, k, x);
    assert forall y :: y in p.workspaces && y != w ==> y in p.workspaces - {w};
    GoodHasNoEmpty(idFor, c);
    assert ProjectValid(k, p);
    var id := idFor(p.id, c.deviceId, p.path);
    var back := p.(workspaces := map[id := Workspace(id, p.id, c.deviceId, p.path, "unknown", Active, None, None)]);
    var after := ps[k := back];
    var without := Without(ps, k, w);
    assert Backfilled(idFor, c.deviceId, without[k]) == back;
    assert MapValues(without, BackfillOf(idFor, c.deviceId)) == after;
    ReplacedKeepsGood(idFor, c, k, w, back, id);
  }

  lemma ReplacedKeepsGood(idFor: IdFor, c: Config, k: string, w: string, q: Project, id: string)
    requires Good(idFor, c) && k in c.projects && w in c.projects[k].workspaces
    requires c.projects[k].path == c.projects[k].workspaces[w].path
    requires id in q.workspaces && q.workspaces.Keys == {id} && ProjectValid(k, q) && q.path == c.projects[k].path
    requires q.workspaces[id].path == q.path && HasDerivedId(idFor, q.workspaces[id])
    ensures Good(idFor, c.(projects := c.projects[k := q]))
  {
    var ps, after := c.projects, c.projects[k := q];
    forall path, k1, w1 | Claims(after, path, k1, w1)
      ensures Claims(ps, path, k1, if k1 == k then w else w1) && (k1 == k ==> w1 == id)
    {
    }
    forall path, k1, w1, k2, w2 | Claims(after, path, k1, w1) && Claims(after, path, k2, w2)
      ensures k1 == k2 && w1 == w2
    {
      assert Claims(ps, path, k1, if k1 == k then w else w1);
      assert Claims(ps, path, k2, if k2 == k then w else w2);
    }
    forall j | j in after ensures PathOwned(after, j) {
      if j == k {
        assert Claims(after, q.path, k, id);
      } else {
        assert PathOwned(ps, j);
        var x :| Claims(ps, ps[j].path, j, x);
        assert Claims(after, after[j].path, j, x);
      }
    }
  }

  /** After a removal and the next load the path is free exactly when the project had another workspace. */
  lemma RemovalSticksExactly(idFor: IdFor, c: Config, k: string, w: string)
    requires Good(idFor, c) && k in c.projects && w in c.projects[k].workspaces
    ensures var path := c.projects[k].workspaces[w].path;
            var next := Loaded(idFor, c.(projects := Without(c.projects, k, w)));
            && Good(idFor, next)
            && (!Registered(next.projects, path) <==> c.projects[k].workspaces - {w} != map[])
  {
    var path, ps := c.projects[k].workspaces[w].path, c.projects;
    var after := c.(projects := Without(ps, k, w));
    var next := Loaded(idFor, after);
    if ps[k].workspaces - {w} != map[] {
      RemovalKeepsGood(idFor, c, k, w);
      GoodSurvivesSaveAndLoad(idFor, after);
      GoodHasNoEmpty(idFor, after);
      assert Claims(ps, path, k, w);
      forall k', w' ensures !Claims(after.projects, path, k', w') {
        ClaimsAfterRemoval(ps, k, w, path, k', w');
      }
    } else {
      RemovalOfOnlyComesBack(idFor, c, k, w);
      var id := idFor(ps[k].id, c.deviceId, ps[k].path);
      assert Claims(next.projects, path, k, id);
    }
  }

  lemma ProjectRemovalKeepsGood(idFor: IdFor, c: Config, k: string)
    requires Good(idFor, c)
    ensures Good(idFor, c.(projects := c.projects - {k}))
  {
    var ps, after := c.projects, c.projects - {k};
    forall path, k', w' ensures Claims(after, path, k', w') <==> k' != k && Claims(ps, path, k', w') {
    }
    forall j | j in after ensures PathOwned(after, j) {
      assert PathOwned(ps, j);
      var x :| Claims(ps, ps[j].path, j, x);
      assert Claims(after, after[j].path, j, x);
    }
  }

  // ---------------------------------------------------------------- workspace states

  lemma ClaimsAfterUpdate(ps: Projects, next: NextState, path: string, k: string, w: string)
    ensures Claims(Updated(ps, next), path, k, w) <==> Claims(ps, path, k, w)
  {
  }

  lemma UpdateValidates(c: Config, next: NextState)
    requires Validates(c)
    ensures Validates(c.(projects := Updated(c.projects, next)))
  {
    var after := Updated(c.projects, next);
    forall k | k in after ensures ProjectValid(k, after[k]) {
      assert ProjectValid(k, c.projects[k]);
      forall w | w in after[k].workspaces ensures WorkspaceValid(after[k], w, after[k].workspaces[w]) {
        assert WorkspaceValid(c.projects[k], w, c.projects[k].workspaces[w]);
      }
    }
  }

  /** Changing states keeps the configuration good. */
  lemma UpdateKeepsGood(idFor: IdFor, c: Config, next: NextState)
    requires Good(idFor, c)
    ensures Good(idFor, c.(projects := Updated(c.projects, next)))
  {
    var ps, after := c.projects, Updated(c.projects, next);
    UpdateValidates(c, next);
    forall path, k, w ensures Claims(after, path, k, w) <==> Claims(ps, path, k, w) {
      ClaimsAfterUpdate(ps, next, path, k, w);
    }
    forall j | j in after ensures PathOwned(after, j) {
      assert PathOwned(ps, j);
      var x :| Claims(ps, ps[j].path, j, x);
      assert Claims(after, after[j].path, j, x);
    }
    forall k, w | k in after && w in after[k].workspaces ensures HasDerivedId(idFor, after[k].workspaces[w]) {
      assert HasDerivedId(idFor, ps[k].workspaces[w]);
    }
  }

  /** A refresh marks exactly the workspaces whose path is gone as stale, and a second one for the
      same paths changes nothing. */
  lemma RefreshIsExactAndIdempotent(ps: Projects, existing: set<string>, k: string, w: string)
    requires k in ps && w in ps[k].workspaces
    ensures var x := Updated(ps, Refreshed(existing))[k].workspaces[w];
            && (x.state == Stale <==> x.path !in existing)
            && (x.path in existing && ps[k].workspaces[w].state != Stale ==> x == ps[k].workspaces[w])
    ensures Updated(Updated(ps, Refreshed(existing)), Refreshed(existing)) == Updated(ps, Refreshed(existing))
  {
    var once := Updated(ps, Refreshed(existing));
    var twice := Updated(once, Refreshed(existing));
    forall j | j in ps ensures twice[j] == once[j] {
      assert twice[j].workspaces == once[j].workspaces;
    }
  }

  // ---------------------------------------------------------------- runs

  datatype Op =
    | Add(at: Checkout, existing: set<string>)
    | Register(projectId: string, path: string, platform: string, head: Option<string>)
    | RemoveWorkspace(query: string, paths: seq<string>)
    | RemoveProject(query: string)
    | Refresh(existing: set<string>)
    | MarkHandoff(source: string, target: string)

  /** The operation on the loaded configuration; None when it fails. */
  ghost function Applied(idFor: IdFor, c: Config, op: Op): Option<Config> {
    match op
    case Add(at, existing) =>
      var refreshed := Updated(c.projects, Refreshed(existing));
      if Registered(refreshed, at.path) then None
      else Some(Added(idFor, c.(projects := refreshed), at))
    case Register(k, path, platform, head) =>
      if Registered(c.projects, path) || k !in c.projects then None
      else Some(c.(projects := WithWorkspace(c.projects, k, NewWorkspace(idFor, c.deviceId, k, path, platform, head))))
    case RemoveWorkspace(query, paths) =>
      (match FindWorkspace(c.projects, query, paths)
       case None => None
       case Some((k, w)) => Some(c.(projects := Without(c.projects, k, w))))
    case RemoveProject(query) =>
      (match FindProject(c.projects, query)
       case None => None
       case Some(k) => Some(c.(projects := c.projects - {k})))
    case Refresh(existing) => Some(c.(projects := Updated(c.projects, Refreshed(existing))))
    case MarkHandoff(source, target) => Some(c.(projects := Updated(c.projects, HandedOff(source, target))))
  }

  /** One command: load, operate, save. The file stays as it is when a step fails. */
  ghost function Command(idFor: IdFor, disk: Config, op: Op): Config {
    var c := Loaded(idFor, disk);
    if Validates(c) then Saved(disk, Applied(idFor, c, op)) else disk
  }

  function Saved(disk: Config, after: Option<Config>): Config {
    match after
    case None => disk
    case Some(c) => if Validates(c) then c else disk
  }

  ghost function Run(idFor: IdFor, disk: Config, ops: seq<Op>): Config
    decreases |ops|
  {
    if ops == [] then disk else Run(idFor, Command(idFor, disk, ops[0]), ops[1..])
  }

  /** The ids an operation derives do not collide. */
  ghost predicate OpDistinguished(idFor: IdFor, c: Config, op: Op) {
    && (op.Add? ==> NewIdDistinguished(idFor, c, op.at.projectId, op.at.path))
    && (op.Register? ==> NewIdDistinguished(idFor, c, op.projectId, op.path))
  }

  ghost predicate RunDistinguished(idFor: IdFor, disk: Config, ops: seq<Op>)
    decreases |ops|
  {
    ops == [] || (OpDistinguished(idFor, Loaded(idFor, disk), ops[0])
                  && RunDistinguished(idFor, Command(idFor, disk, ops[0]), ops[1..]))
  }

  lemma AddCommand(idFor: IdFor, c: Config, at: Checkout, existing: set<string>)
    requires Good(idFor, c) && NewIdDistinguished(idFor, c, at.projectId, at.path)
    ensures var after := Applied(idFor, c, Add(at, existing));
            after.Some? && Validates(after.value) ==> Good(idFor, after.value)
  {
    var refreshed := c.(projects := Updated(c.projects, Refreshed(existing)));
    UpdateKeepsGood(idFor, c, Refreshed(existing));
    if !Registered(refreshed.projects, at.path) {
      SameIdsAfterUpdate(idFor, c, Refreshed(existing), at.projectId, at.path);
      AddKeepsGoodExactly(idFor, refreshed, at);
      AddValidExactly(idFor, refreshed, at);
    }
  }

  lemma SameIdsAfterUpdate(idFor: IdFor, c: Config, next: NextState, k: string, path: string)
    requires NewIdDistinguished(idFor, c, k, path)
    ensures NewIdDistinguished(idFor, c.(projects := Updated(c.projects, next)), k, path)
  {
  }

  lemma RegisterCommand(idFor: IdFor, c: Config, k: string, path: string, platform: string, head: Option<string>)
    requires Good(idFor, c) && NewIdDistinguished(idFor, c, k, path)
    ensures var after := Applied(idFor, c, Register(k, path, platform, head));
            after.Some? && Validates(after.value) ==> Good(idFor, after.value)
  {
    if !Registered(c.projects, path) && k in c.projects {
      var q := WithWorkspace(c.projects, k, NewWorkspace(idFor, c.deviceId, k, path, platform, head))[k];
      InsertKeepsGoodExactly(idFor, c, k, q, path, platform, head);
      InsertValidExactly(idFor, c, k, q, path, platform, head);
    }
  }

  /** One command keeps what loading the file gives good. */
  lemma CommandKeepsGood(idFor: IdFor, disk: Config, op: Op)
    requires Good(idFor, Loaded(idFor, disk)) && OpDistinguished(idFor, Loaded(idFor, disk), op)
    ensures Good(idFor, Loaded(idFor, Command(idFor, disk, op)))
  {
    AppliedKeepsGood(idFor, Loaded(idFor, disk), op);
    SavedKeepsGood(idFor, disk, Applied(idFor, Loaded(idFor, disk), op));
  }

  ghost predicate GoodIfSaved(idFor: IdFor, after: Option<Config>) {
    after.Some? && Validates(after.value) ==> Good(idFor, Loaded(idFor, after.value))
  }

  lemma SavedKeepsGood(idFor: IdFor, disk: Config, after: Option<Config>)
    requires Good(idFor, Loaded(idFor, disk)) && GoodIfSaved(idFor, after)
    ensures Good(idFor, Loaded(idFor, Saved(disk, after)))
  {
  }

  lemma AppliedKeepsGood(idFor: IdFor, c: Config, op: Op)
    requires Good(idFor, c) && OpDistinguished(idFor, c, op)
    ensures GoodIfSaved(idFor, Applied(idFor, c, op))
  {
    if op.RemoveWorkspace? {
      RemoveCommand(idFor, c, op.query, op.paths);
    } else if Applied(idFor, c, op).Some? && Validates(Applied(idFor, c, op).value) {
      OtherCommandsKeepGood(idFor, c, op);
      GoodSurvivesSaveAndLoad(idFor, Applied(idFor, c, op).value);
    }
  }

  lemma RemovalApplied(idFor: IdFor, c: Config, query: string, paths: seq<string>)
    ensures var found := FindWorkspace(c.projects, query, paths);
            var after := Applied(idFor, c, RemoveWorkspace(query, paths));
            if found.None? then after == None
            else && found.value.0 in c.projects && found.value.1 in c.projects[found.value.0].workspaces
                 && after == Some(c.(projects := Without(c.projects, found.value.0, found.value.1)))
  {
  }

  lemma RemoveCommand(idFor: IdFor, c: Config, query: string, paths: seq<string>)
    requires Good(idFor, c)
    ensures GoodIfSaved(idFor, Applied(idFor, c, RemoveWorkspace(query, paths)))
  {
    RemovalApplied(idFor, c, query, paths);
    var found := FindWorkspace(c.projects, query, paths);
    if found.Some? {
      RemovedIsGood(idFor, c, found.value.0, found.value.1);
    }
  }

  lemma RemovedIsGood(idFor: IdFor, c: Config, k: string, w: string)
    requires Good(idFor, c) && k in c.projects && w in c.projects[k].workspaces
    ensures GoodIfSaved(idFor, Some(c.(projects := Without(c.projects, k, w))))
  {
    RemovalSticksExactly(idFor, c, k, w);
  }

  lemma OtherCommandsKeepGood(idFor: IdFor, c: Config, op: Op)
    requires Good(idFor, c) && OpDistinguished(idFor, c, op) && !op.RemoveWorkspace?
    requires Applied(idFor, c, op).Some? && Validates(Applied(idFor, c, op).value)
    ensures Good(idFor, Applied(idFor, c, op).value)
  {
    match op {
      case Add(at, existing) => AddCommand(idFor, c, at, existing);
      case Register(k, path, platform, head) => RegisterCommand(idFor, c, k, path, platform, head);
      case RemoveProject(query) => ProjectRemovalKeepsGood(idFor, c, FindProject(c.projects, query).value);
      case Refresh(existing) => UpdateKeepsGood(idFor, c, Refreshed(existing));
      case MarkHandoff(source, target) => UpdateKeepsGood(idFor, c, HandedOff(source, target));
    }
  }

  /** Over every run of commands from a good file, what is loaded stays good: every path has one
      owner, keys are ids, and each project's path is one of its workspaces' paths. */
  lemma {:induction false} RunKeepsGood(idFor: IdFor, disk: Config, ops: seq<Op>)
    requires Good(idFor, Loaded(idFor, disk)) && RunDistinguished(idFor, disk, ops)
    ensures Good(idFor, Loaded(idFor, Run(idFor, disk, ops)))
    decreases |ops|
  {
    if ops != [] {
      CommandKeepsGood(idFor, disk, ops[0]);
      RunKeepsGood(idFor, Command(idFor, disk, ops[0]), ops[1..]);
    }
  }

  // ---------------------------------------------------------------- the agent

  /** The agent keeps its configuration in memory, never loads it again, and does not take back a
      change whose save fails. */
  datatype Agent = Agent(memory: Config, disk: Config)

  predicate AgentOffers(op: Op) {
    (op.Add? && op.existing == {}) || op.Register? || op.RemoveProject?
  }

  /** The agent's add does not refresh workspace states first. */
  ghost function AgentApplied(idFor: IdFor, c: Config, op: Op): Option<Config> {
    if op.Add? then
      if Registered(c.projects, op.at.path) then None
      else Some(Added(idFor, c, op.at))
    else Applied(idFor, c, op)
  }

  ghost function Request(idFor: IdFor, a: Agent, op: Op): Agent {
    match AgentApplied(idFor, a.memory, op)
    case None => a
    case Some(after) => Agent(after, if Validates(after) then after else a.disk)
  }

  predicate OpValid(c: Config, op: Op) {
    && (op.Add? ==> CheckoutValid(c, op.at))
    && (op.Register? ==> op.path != "" && op.platform != "")
  }

  /** A request keeps memory good, and the file equal to it, exactly when its operation is refused
      up front or brings valid fields. */
  lemma RequestKeepsGoodExactly(idFor: IdFor, a: Agent, op: Op)
    requires Good(idFor, a.memory) && a.disk == a.memory && AgentOffers(op) && OpDistinguished(idFor, a.memory, op)
    ensures Good(idFor, Request(idFor, a, op).memory) && Request(idFor, a, op).disk == Request(idFor, a, op).memory
            <==> AgentApplied(idFor, a.memory, op).None? || OpValid(a.memory, op)
  {
    var c := a.memory;
    if AgentApplied(idFor, c, op).Some? {
      match op {
        case Add(at, _) => AddKeepsGoodExactly(idFor, c, at);
        case Register(k, path, platform, head) =>
          var q := WithWorkspace(c.projects, k, NewWorkspace(idFor, c.deviceId, k, path, platform, head))[k];
          InsertKeepsGoodExactly(idFor, c, k, q, path, platform, head);
        case RemoveProject(query) => ProjectRemovalKeepsGood(idFor, c, FindProject(c.projects, query).value);
        case _ =>
      }
    }
  }

  ghost function Requests(idFor: IdFor, a: Agent, ops: seq<Op>): Agent
    decreases |ops|
  {
    if ops == [] then a else Requests(idFor, Request(idFor, a, ops[0]), ops[1..])
  }

  /** Every request is one the agent offers, brings valid fields and derives no colliding id. */
  ghost predicate RequestsSound(idFor: IdFor, a: Agent, ops: seq<Op>)
    decreases |ops|
  {
    ops == [] || (&& AgentOffers(ops[0]) && OpValid(a.memory, ops[0]) && OpDistinguished(idFor, a.memory, ops[0])
                  && RequestsSound(idFor, Request(idFor, a, ops[0]), ops[1..]))
  }

  /** Over every run of such requests the agent's memory stays good and equal to its file. */
  lemma {:induction false} RequestsKeepGood(idFor: IdFor, a: Agent, ops: seq<Op>)
    requires Good(idFor, a.memory) && a.disk == a.memory && RequestsSound(idFor, a, ops)
    ensures Good(idFor, Requests(idFor, a, ops).memory)
    ensures Requests(idFor, a, ops).disk == Requests(idFor, a, ops).memory
    decreases |ops|
  {
    if ops != [] {
      RequestKeepsGoodExactly(idFor, a, ops[0]);
      RequestsKeepGood(idFor, Request(idFor, a, ops[0]), ops[1..]);
    }
  }

  // ---------------------------------------------------------------- both on one file

  datatype Event = ByCommand(op: Op) | ByAgent(op: Op)

  /** Commands load the file and save it; the agent works on its memory and saves over the file. */
  ghost function Happens(idFor: IdFor, a: Agent, e: Event): Agent {
    match e
    case ByCommand(op) => a.(disk := Command(idFor, a.disk, op))
    case ByAgent(op) => Request(idFor, a, op)
  }

  ghost function Mixed(idFor: IdFor, a: Agent, events: seq<Event>): Agent
    decreases |events|
  {
    if events == [] then a else Mixed(idFor, Happens(idFor, a, events[0]), events[1..])
  }

  ghost predicate EventSound(idFor: IdFor, a: Agent, e: Event) {
    match e
    case ByCommand(op) => OpDistinguished(idFor, Loaded(idFor, a.disk), op)
    case ByAgent(op) => AgentOffers(op) && OpValid(a.memory, op) && OpDistinguished(idFor, a.memory, op)
  }

  ghost predicate MixedSound(idFor: IdFor, a: Agent, events: seq<Event>)
    decreases |events|
  {
    events == [] || (EventSound(idFor, a, events[0]) && MixedSound(idFor, Happens(idFor, a, events[0]), events[1..]))
  }

  /** The agent's memory, and what loading the file gives, are good. */
  ghost predicate BothGood(idFor: IdFor, a: Agent) {
    Good(idFor, a.memory) && Good(idFor, Loaded(idFor, a.disk))
  }

  lemma RequestKeepsBothGood(idFor: IdFor, a: Agent, op: Op)
    requires BothGood(idFor, a) && EventSound(idFor, a, ByAgent(op))
    ensures BothGood(idFor, Request(idFor, a, op))
  {
    RequestKeepsGoodExactly(idFor, Agent(a.memory, a.memory), op);
    var after := AgentApplied(idFor, a.memory, op);
    if after.Some? {
      GoodSurvivesSaveAndLoad(idFor, after.value);
    }
  }

  /** Over every interleaving of commands and requests, memory and file stay good. */
  lemma {:induction false} MixedKeepsGood(idFor: IdFor, a: Agent, events: seq<Event>)
    requires BothGood(idFor, a) && MixedSound(idFor, a, events)
    ensures BothGood(idFor, Mixed(idFor, a, events))
    decreases |events|
  {
    if events != [] {
      match events[0] {
        case ByCommand(op) => CommandKeepsGood(idFor, a.disk, op);
        case ByAgent(op) => RequestKeepsBothGood(idFor, a, op);
      }
      MixedKeepsGood(idFor, Happens(idFor, a, events[0]), events[1..]);
    }
  }

  function AgentOps(events: seq<Event>): seq<Op>
    decreases |events|
  {
    if events == [] then []
    else (if events[0].ByAgent? then [events[0].op] else []) + AgentOps(events[1..])
  }

  function Commands(ops: seq<Op>): (events: seq<Event>)
    ensures |events| == |ops| && forall i :: 0 <= i < |ops| ==> events[i] == ByCommand(ops[i])
  {
    seq(|ops|, i requires 0 <= i < |ops| => ByCommand(ops[i]))
  }

  /** The agent never learns what commands did: its memory is that of its own requests alone. */
  lemma {:induction false} AgentSeesOnlyItself(idFor: IdFor, a: Agent, b: Agent, events: seq<Event>)
    requires a.memory == b.memory
    ensures Mixed(idFor, a, events).memory == Requests(idFor, b, AgentOps(events)).memory
    decreases |events|
  {
    if events != [] {
      var rest := AgentOps(events[1..]);
      if events[0].ByAgent? {
        assert AgentOps(events)[0] == events[0].op && AgentOps(events)[1..] == rest;
        AgentSeesOnlyItself(idFor, Happens(idFor, a, events[0]), Request(idFor, b, events[0].op), events[1..]);
      } else {
        assert AgentOps(events) == rest;
        AgentSeesOnlyItself(idFor, Happens(idFor, a, events[0]), b, events[1..]);
      }
    }
  }

  lemma {:induction false} CommandsOnly(idFor: IdFor, a: Agent, ops: seq<Op>)
    ensures Mixed(idFor, a, Commands(ops)) == Agent(a.memory, Run(idFor, a.disk, ops))
    decreases |ops|
  {
    if ops != [] {
      assert Commands(ops)[1..] == Commands(ops[1..]);
      CommandsOnly(idFor, Happens(idFor, a, ByCommand(ops[0])), ops[1..]);
    }
  }

  /**
   Lost updates: after any commands, a request with valid fields leaves what they wrote exactly if it
   is refused up front; otherwise the file becomes what the request makes of the agent's memory, the
   same as if the commands had never run.
   */
  lemma AgentSaveDropsCommands(idFor: IdFor, a: Agent, ops: seq<Op>, op: Op)
    requires Good(idFor, a.memory) && AgentOffers(op) && OpValid(a.memory, op) && OpDistinguished(idFor, a.memory, op)
    ensures var after := AgentApplied(idFor, a.memory, op);
            Request(idFor, Mixed(idFor, a, Commands(ops)), op).disk
            == if after.None? then Run(idFor, a.disk, ops) else Request(idFor, a, op).disk
  {
    CommandsOnly(idFor, a, ops);
    RequestKeepsGoodExactly(idFor, Agent(a.memory, a.memory), op);
  }
}
