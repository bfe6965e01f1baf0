/**
 * The project store of src/hooks/useTree.ts: the list of projects, the current
 * project id, and the focused and editing node ids of the session. Each
 * store action overwrites some of these fields, so the store is a class whose
 * methods modify it. Fresh ids and timestamps are passed in by the caller.
 */
module Store {
  import opened Wrappers
  import opened Tree
  import opened Seqs
  import opened Engine

  /** Name and description of the project the store starts with. */
  const DefaultName: string := "Welcome to TreeNote"
  const DefaultDescription: string :=
    "A modern tree-based note-taking platform for organizing your thoughts and projects."

  predicate ProjectIdsUnique(ps: seq<Project>) {
    forall i, j :: 0 <= i < j < |ps| ==> ps[i].id != ps[j].id
  }

  /**
   * The first project whose id is the current id; none when there is no
   * current id or no project carries it.
   */
  function FindProject(ps: seq<Project>, current: Option<string>): (r: Option<Project>)
    ensures r.None? <==> current.None? || forall i :: 0 <= i < |ps| ==> ps[i].id != current.value
    ensures r.Some? ==> current == Some(r.value.id) &&
                        exists i :: 0 <= i < |ps| && ps[i] == r.value &&
                                    forall j :: 0 <= j < i ==> ps[j].id != r.value.id
  {
    if current.None? || ps == [] then None
    else if ps[0].id == current.value then Some(ps[0])
    else
      var r := FindProject(ps[1..], current);
      if r.Some? then
        var i :| 0 <= i < |ps[1..]| && ps[1..][i] == r.value && forall j :: 0 <= j < i ==> ps[1..][j].id != r.value.id;
        assert ps[i + 1] == r.value && forall j :: 0 <= j < i + 1 ==> ps[j].id != r.value.id;
        r
      else
        r
  }

  /**
   * Keep every project whose id differs from `id`, each as often as it occurs,
   * in its original order.
   */
  function RemoveProject(ps: seq<Project>, id: string): (r: seq<Project>)
    ensures forall p :: p in r <==> p in ps && p.id != id
    ensures IsSubseq(r, ps)
  {
    if ps == [] then []
    else if ps[0].id == id then RemoveProject(ps[1..], id)
    else [ps[0]] + RemoveProject(ps[1..], id)
  }

  /** Each kept project occurs as often as before; each removed one not at all. */
  lemma {:induction false} RemoveProjectCounts(ps: seq<Project>, id: string)
    ensures forall p :: multiset(RemoveProject(ps, id))[p] == if p.id != id then multiset(ps)[p] else 0
    decreases |ps|
  {
    if ps != [] {
      RemoveProjectCounts(ps[1..], id);
      assert ps == [ps[0]] + ps[1..];
    }
  }

  lemma {:induction false} RemoveProjectMissing(ps: seq<Project>, id: string)
    requires forall i :: 0 <= i < |ps| ==> ps[i].id != id
    ensures RemoveProject(ps, id) == ps
    decreases |ps|
  {
    if ps != [] {
      RemoveProjectMissing(ps[1..], id);
      assert ps == [ps[0]] + ps[1..];
    }
  }

  /**
   * With unique project ids, removing one id drops at most one project and
   * keeps the ids unique, so deleting from two or more projects leaves at least one.
   */
  lemma {:induction false} RemoveProjectKeepsRest(ps: seq<Project>, id: string)
    requires ProjectIdsUnique(ps)
    ensures |RemoveProject(ps, id)| >= |ps| - 1
    ensures ProjectIdsUnique(RemoveProject(ps, id))
    decreases |ps|
  {
    if ps != [] {
      var r := RemoveProject(ps, id);
      if ps[0].id == id {
        RemoveProjectMissing(ps[1..], id);
      } else {
        RemoveProjectKeepsRest(ps[1..], id);
        var rest := RemoveProject(ps[1..], id);
        assert r == [ps[0]] + rest;
        forall k | 0 <= k < |rest| ensures rest[k].id != ps[0].id {
          assert rest[k] in rest;
          var j :| 0 <= j < |ps[1..]| && ps[1..][j] == rest[k];
          assert ps[j + 1] == rest[k];
        }
      }
    }
  }

  /** The project list after a node operation: only projects with id `pid` get the new tree. */
  function ReplaceTree(ps: seq<Project>, pid: string, tree: Node, now: string): seq<Project> {
    seq(|ps|, i requires 0 <= i < |ps| =>
      if ps[i].id == pid then ps[i].(tree := tree, updatedAt := now) else ps[i])
  }

  class TreeStore {
    var projects: seq<Project>
    var currentProjectId: Option<string>
    var focusedNodeId: Option<string>
    var editingNodeId: Option<string>

    /** What every action keeps: a project exists, project ids are unique, every tree is rooted at "root" with unique ids. */
    ghost predicate Valid()
      reads this
    {
      |projects| >= 1 && ProjectIdsUnique(projects) &&
      forall i :: 0 <= i < |projects| ==> WellFormed(projects[i].tree)
    }

    /** The store starts with one default project, current, and nothing focused or edited. */
    constructor(projectId: string, createdAt: string, updatedAt: string, welcome: string)
      ensures Valid()
      ensures projects == [CreateDefaultProject(projectId, DefaultName, DefaultDescription, createdAt, updatedAt, welcome)]
      ensures currentProjectId == Some(projectId)
      ensures focusedNodeId == None && editingNodeId == None
    {
      projects := [CreateDefaultProject(projectId, DefaultName, DefaultDescription, createdAt, updatedAt, welcome)];
      currentProjectId := Some(projectId);
      focusedNodeId := None;
      editingNodeId := None;
    }

    /** Append a new default project and make it current; focus and editing are cleared. */
    method CreateProject(name: string, description: string, projectId: string,
                         createdAt: string, updatedAt: string, welcome: string)
      modifies this
      ensures projects == old(projects) + [CreateDefaultProject(projectId, name, description, createdAt, updatedAt, welcome)]
      ensures currentProjectId == Some(projectId)
      ensures focusedNodeId == None && editingNodeId == None
      ensures old(Valid()) && (forall i :: 0 <= i < |old(projects)| ==> old(projects)[i].id != projectId) ==> Valid()
    {
      var newProject := CreateDefaultProject(projectId, name, description, createdAt, updatedAt, welcome);
      projects := projects + [newProject];
      currentProjectId := Some(projectId);
      focusedNodeId := None;
      editingNodeId := None;
    }

    /**
     * Remove every project with id `id`, unless at most one project exists.
     * If the current project goes, the first remaining project becomes current
     * (none when nothing remains, or when that project's id is the empty string,
     * which the source treats as missing); focus and editing are cleared.
     */
    method DeleteProject(id: string)
      modifies this
      ensures |old(projects)| <= 1 ==>
                projects == old(projects) && currentProjectId == old(currentProjectId) &&
                focusedNodeId == old(focusedNodeId) && editingNodeId == old(editingNodeId)
      ensures |old(projects)| > 1 ==>
                projects == RemoveProject(old(projects), id) &&
                focusedNodeId == None && editingNodeId == None
      ensures |old(projects)| > 1 && old(currentProjectId) == Some(id) ==>
                currentProjectId == if |projects| > 0 && projects[0].id != "" then Some(projects[0].id) else None
      ensures |old(projects)| > 1 && old(currentProjectId) != Some(id) ==>
                currentProjectId == old(currentProjectId)
      ensures old(Valid()) ==> Valid()
    {
      if |projects| <= 1 {
        return;
      }
      var updatedProjects := RemoveProject(projects, id);
      var newCurrentId := currentProjectId;
      if currentProjectId == Some(id) {
        newCurrentId := if |updatedProjects| > 0 && updatedProjects[0].id != "" then Some(updatedProjects[0].id) else None;
      }
      if Valid() {
        RemoveProjectKeepsRest(projects, id);
      }
      projects := updatedProjects;
      currentProjectId := newCurrentId;
      focusedNodeId := None;
      editingNodeId := None;
    }

    /** Make `id` current (it is not checked to exist); focus and editing are cleared. */
    method SwitchProject(id: string)
      modifies this
      ensures projects == old(projects)
      ensures currentProjectId == Some(id)
      ensures focusedNodeId == None && editingNodeId == None
      ensures old(Valid()) ==> Valid()
    {
      currentProjectId := Some(id);
      focusedNodeId := None;
      editingNodeId := None;
    }

    /** Merge the given name and description into the projects with id `id` and stamp them. */
    method UpdateProject(id: string, name: Option<string>, description: Option<string>, now: string)
      modifies this
      ensures |projects| == |old(projects)|
      ensures forall i :: 0 <= i < |projects| ==>
                projects[i] == if old(projects)[i].id == id
                               then old(projects)[i].(name := name.GetOr(old(projects)[i].name),
                                                      description := description.GetOr(old(projects)[i].description),
                                                      updatedAt := now)
                               else old(projects)[i]
      ensures currentProjectId == old(currentProjectId)
      ensures focusedNodeId == old(focusedNodeId) && editingNodeId == old(editingNodeId)
      ensures old(Valid()) ==> Valid()
    {
      projects := seq(|projects|, i requires 0 <= i < |projects| reads this =>
        if projects[i].id == id
        then projects[i].(name := name.GetOr(projects[i].name),
                          description := description.GetOr(projects[i].description),
                          updatedAt := now)
        else projects[i]);
    }

    /** The first project whose id is the current id, if any. */
    function GetCurrentProject(): (r: Option<Project>)
      reads this
      ensures r.Some? ==> r.value in projects && currentProjectId == Some(r.value.id)
      ensures r.None? <==> currentProjectId.None? || forall i :: 0 <= i < |projects| ==> projects[i].id != currentProjectId.value
    {
      FindProject(projects, currentProjectId)
    }

    method SetFocusedNode(id: Option<string>)
      modifies this
      ensures focusedNodeId == id
      ensures projects == old(projects) && currentProjectId == old(currentProjectId)
      ensures editingNodeId == old(editingNodeId)
    {
      focusedNodeId := id;
    }

    method SetEditingNodeId(id: Option<string>)
      modifies this
      ensures editingNodeId == id
      ensures projects == old(projects) && currentProjectId == old(currentProjectId)
      ensures focusedNodeId == old(focusedNodeId)
    {
      editingNodeId := id;
    }

    /**
     * Add a new leaf with id `freshId` under `parentId` in the current project's
     * tree and stamp that project; no current project means no change.
     */
    method AddChild(parentId: string, freshId: string, now: string)
      modifies this
      ensures old(GetCurrentProject()).None? ==> projects == old(projects)
      ensures old(GetCurrentProject()).Some? ==>
                var cp := old(GetCurrentProject()).value;
                |projects| == |old(projects)| &&
                forall i :: 0 <= i < |projects| ==>
                  projects[i] == if old(projects)[i].id == cp.id
                                 then old(projects)[i].(tree := AddChildRecursive(cp.tree, parentId, freshId), updatedAt := now)
                                 else old(projects)[i]
      ensures currentProjectId == old(currentProjectId)
      ensures focusedNodeId == old(focusedNodeId) && editingNodeId == old(editingNodeId)
      ensures old(Valid()) && (forall i :: 0 <= i < |old(projects)| ==> freshId !in IdSet(old(projects)[i].tree)) ==> Valid()
    {
      var currentProject := GetCurrentProject();
      if currentProject.None? {
        return;
      }
      var cp := currentProject.value;
      var updated := AddChildRecursive(cp.tree, parentId, freshId);
      if Valid() && freshId !in IdSet(cp.tree) {
        AddChildWellFormed(cp.tree, parentId, freshId);
      }
      projects := ReplaceTree(projects, cp.id, updated, now);
    }

    /** Patch the node `id` in the current project's tree and stamp that project. */
    method UpdateNode(id: string, patch: Patch, now: string)
      modifies this
      ensures old(GetCurrentProject()).None? ==> projects == old(projects)
      ensures old(GetCurrentProject()).Some? ==>
                var cp := old(GetCurrentProject()).value;
                |projects| == |old(projects)| &&
                forall i :: 0 <= i < |projects| ==>
                  projects[i] == if old(projects)[i].id == cp.id
                                 then old(projects)[i].(tree := UpdateNodeRecursive(cp.tree, id, patch), updatedAt := now)
                                 else old(projects)[i]
      ensures currentProjectId == old(currentProjectId)
      ensures focusedNodeId == old(focusedNodeId) && editingNodeId == old(editingNodeId)
      ensures old(Valid()) ==> Valid()
    {
      var currentProject := GetCurrentProject();
      if currentProject.None? {
        return;
      }
      var cp := currentProject.value;
      var updated := UpdateNodeRecursive(cp.tree, id, patch);
      if Valid() {
        UpdateWellFormed(cp.tree, id, patch);
      }
      projects := ReplaceTree(projects, cp.id, updated, now);
    }

    /**
     * Delete the subtrees with id `id` from the current project's tree and stamp
     * that project. Deleting "root" is refused and changes nothing.
     */
    method DeleteNode(id: string, now: string)
      modifies this
      ensures id == RootId || old(GetCurrentProject()).None? ==> projects == old(projects)
      ensures id != RootId && old(GetCurrentProject()).Some? ==>
                var cp := old(GetCurrentProject()).value;
                |projects| == |old(projects)| &&
                forall i :: 0 <= i < |projects| ==>
                  projects[i] == if old(projects)[i].id == cp.id
                                 then old(projects)[i].(tree := DeleteNodeRecursive(cp.tree, id), updatedAt := now)
                                 else old(projects)[i]
      ensures currentProjectId == old(currentProjectId)
      ensures focusedNodeId == old(focusedNodeId) && editingNodeId == old(editingNodeId)
      ensures old(Valid()) ==> Valid()
    {
      if id == RootId {
        return;
      }
      var currentProject := GetCurrentProject();
      if currentProject.None? {
        return;
      }
      var cp := currentProject.value;
      var updated := DeleteNodeRecursive(cp.tree, id);
      if Valid() {
        DeleteWellFormed(cp.tree, id);
      }
      projects := ReplaceTree(projects, cp.id, updated, now);
    }
  }

  /**
   * A client of the store: with two projects A and B, switching to B makes B
   * current and clears focus; a store holding a single project refuses to delete it.
   */
  method SwitchScenario(a: string, b: string, now: string, welcome: string)
    returns (current: Option<Project>, focused: Option<string>, remaining: nat)
    requires a != b
    ensures current.Some? && current.value.id == b
    ensures focused == None
    ensures remaining == 1
  {
    var single := new TreeStore(a, now, now, welcome);
    single.DeleteProject(a);
    remaining := |single.projects|;

    var s := new TreeStore(a, now, now, welcome);
    s.SetFocusedNode(Some(RootId));
    s.CreateProject("B", "", b, now, now, welcome);
    s.SwitchProject(b);
    focused := s.focusedNodeId;
    current := s.GetCurrentProject();
    assert s.projects[1].id == b;
  }
}
