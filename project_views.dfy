/** The HTML project views (projects/views.py): which projects the lists and
    the detail page show, project creation, the edit and delete permissions
    and the soft delete. */
module ProjectViews {
  import opened Common
  import opened Users
  import opened ProjectModels
  import ApiViews

  /** The list and detail querysets: only active projects; admins (by
      profile role) see all of them, others those they are members of. */
  predicate WebProjectListed(r: Requester, p: Project)
  {
    p.isActive && (IsAdmin(r.profile) || r.id in p.members)
  }

  /** `project_list_view` and `ProjectListView.get_queryset`, in table
      order. */
  function ProjectList(r: Requester, projects: seq<Project>): (listed: seq<Project>)
    ensures forall k :: 0 <= k < |listed| ==> listed[k] in projects && listed[k].isActive
    ensures forall k :: 0 <= k < |listed| ==> IsAdmin(r.profile) || r.id in listed[k].members
    ensures forall j :: 0 <= j < |projects| && WebProjectListed(r, projects[j]) ==> projects[j] in listed
  {
    Filter(projects, (p: Project) => WebProjectListed(r, p))
  }

  function ProjectId(p: Project): nat
  {
    p.id
  }

  /** The list repeats no project (the queryset's `.distinct()`). */
  lemma ProjectListDistinct(r: Requester, projects: seq<Project>)
    requires UniqueBy(projects, ProjectId)
    ensures UniqueBy(ProjectList(r, projects), ProjectId)
  {
    FilterKeepsUnique(projects, (p: Project) => WebProjectListed(r, p), ProjectId);
  }

  /** An admin's list holds exactly the active projects, a member's list is
      part of it. */
  lemma AdminListIsActiveProjects(admin: Requester, other: Requester, projects: seq<Project>)
    requires IsAdmin(admin.profile)
    ensures ProjectList(admin, projects) == Filter(projects, (p: Project) => p.isActive)
    ensures |ProjectList(other, projects)| <= |ProjectList(admin, projects)|
  {
    FilterAgree(projects, (p: Project) => WebProjectListed(admin, p), (p: Project) => p.isActive);
    CountMonotone(projects, (p: Project) => WebProjectListed(other, p), (p: Project) => WebProjectListed(admin, p));
  }

  /** `ProjectUpdateView.test_func` and `ProjectDeleteView.test_func`: the
      same rule for both. */
  predicate CanManageProject(r: Requester, p: Project)
  {
    IsAdmin(r.profile) || p.owner == r.id
  }

  /** `ProjectCreateView.form_valid`: the project is saved with the requester
      as owner, then the requester is added to its members (the form itself
      sets no members). The new project appears in the creator's list. */
  method CreateProject(pt: ProjectTable, r: Requester) returns (id: nat)
    requires pt.Valid()
    modifies pt
    ensures pt.Valid()
    ensures id == old(pt.nextId) && pt.nextId == id + 1
    ensures pt.rows == old(pt.rows) + [NewProject(id, r.id).(members := {r.id})]
    ensures ProjectIndex(pt.rows, id) == Some(|old(pt.rows)|)
    ensures WebProjectListed(r, pt.rows[|old(pt.rows)|]) && CanManageProject(r, pt.rows[|old(pt.rows)|])
  {
    id := pt.nextId;
    var p := NewProject(id, r.id);
    pt.rows := pt.rows + [p];
    pt.nextId := id + 1;
    pt.rows := pt.rows[|pt.rows| - 1 := p.(members := p.members + {r.id})];
    assert p.members + {r.id} == {r.id};
    assert pt.rows[|pt.rows| - 1].id == id;
    assert forall j :: 0 <= j < |pt.rows| - 1 ==> pt.rows[j].id < id;
  }

  datatype DeleteOutcome = NotFound | Forbidden | Deactivated

  /** `ProjectDeleteView.delete`: the project is looked up among all projects,
      active or not; only an admin or the owner may delete; deleting only
      clears `is_active`, and the record stays in the table. */
  method SoftDeleteProject(pt: ProjectTable, r: Requester, pid: nat) returns (outcome: DeleteOutcome)
    requires pt.Valid()
    modifies pt
    ensures pt.Valid() && pt.nextId == old(pt.nextId) && |pt.rows| == |old(pt.rows)|
    ensures var k := ProjectIndex(old(pt.rows), pid);
      if k.None? then
        outcome == NotFound && pt.rows == old(pt.rows)
      else if !CanManageProject(r, old(pt.rows)[k.value]) then
        outcome == Forbidden && pt.rows == old(pt.rows)
      else
        outcome == Deactivated && pt.rows == old(pt.rows)[k.value := SoftDeleted(old(pt.rows)[k.value])]
  {
    var k := ProjectIndex(pt.rows, pid);
    if k.None? {
      return NotFound;
    }
    if !CanManageProject(r, pt.rows[k.value]) {
      return Forbidden;
    }
    pt.rows := pt.rows[k.value := SoftDeleted(pt.rows[k.value])];
    outcome := Deactivated;
  }

  /** The record after a soft delete: inactive, every other field kept. */
  function SoftDeleted(p: Project): (q: Project)
    ensures !q.isActive && q == p.(isActive := false)
  {
    p.(isActive := false)
  }

  /** Soft-deleting twice is soft-deleting once, and the second request by
      the same user is allowed again. */
  lemma SoftDeleteIdempotent(r: Requester, p: Project)
    ensures SoftDeleted(SoftDeleted(p)) == SoftDeleted(p)
    ensures CanManageProject(r, p) == CanManageProject(r, SoftDeleted(p))
  {
  }

  /** A soft-deleted project leaves every HTML list, but through the REST API,
      whose queryset does not look at `is_active`, it stays visible to staff
      and to its members. */
  lemma SoftDeletedHiddenOnlyFromWeb(r: Requester, p: Project)
    ensures !WebProjectListed(r, SoftDeleted(p))
    ensures ApiViews.ApiProjectVisible(r, SoftDeleted(p)) == ApiViews.ApiProjectVisible(r, p)
  {
  }

  /** After a soft delete the project drops out of every user's list, while
      the table keeps its row. */
  lemma SoftDeleteShrinksLists(r: Requester, rows: seq<Project>, k: nat)
    requires k < |rows|
    ensures SoftDeleted(rows[k]) !in ProjectList(r, rows[k := SoftDeleted(rows[k])])
    ensures |ProjectList(r, rows[k := SoftDeleted(rows[k])])| <= |ProjectList(r, rows)|
  {
    CountAfterUpdate(rows, k, SoftDeleted(rows[k]), (p: Project) => WebProjectListed(r, p));
  }
}
