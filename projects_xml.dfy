/**
 * The projects.xml generator: from the decoded projects.json (a hash from
 * project id to project record), build the parent-to-subprojects index,
 * shape one `<project>` element per project with its subprojects and its
 * members ordered by nickname, and write the file only when its text
 * changes. JSON values are modelled as far as the script inspects them.
 */
module ProjectsXml {
  import opened Wrappers
  import opened Strings
  import opened Seqs
  import opened StableSort

  /** A decoded JSON value. Arrays and objects are kept only by their size,
      which is all `empty?` looks at. */
  datatype Value =
    | Null
    | Bool(b: bool)
    | Num(n: int)
    | Str(s: string)
    | Arr(size: nat)
    | Obj(size: nat)

  /** Ruby truthiness: everything except `nil` and `false`. */
  predicate Truthy(v: Value) {
    !(v.Null? || v == Bool(false))
  }

  /** A member record; `member['x']` of a missing key is `nil`, so only the
      presence of `role` is kept apart. */
  datatype Member = Member(nickname: Value, isLead: Value, email: Value, name: Value, role: Option<Value>)

  /** A project record; `members` is `None` when the key is missing or its
      value is neither an array nor an empty object, where the script raises
      (`nil` and strings have no `sort`; a non-empty object sorts to
      key-value pairs, on which the member lookups fail). An empty object
      sorts to `[]` without calling the block, so it is `Some([])`, like an
      empty array. */
  datatype Project = Project(
    parent: Option<Value>,
    email: Value,
    name: Value,
    href: Value,
    description: Value,
    propagatesMembers: Value,
    members: Option<seq<Member>>)

  /** The decoded hash, in its iteration (insertion) order. */
  type Projects = seq<(string, Project)>

  /** A JSON object has each key once. */
  predicate UniqueIds(projects: Projects) {
    forall i, j :: 0 <= i < j < |projects| ==> projects[i].0 != projects[j].0
  }

  function Ids(projects: Projects): (r: seq<string>)
    ensures |r| == |projects|
    ensures forall k :: 0 <= k < |projects| ==> r[k] == projects[k].0
  {
    seq(|projects|, k requires 0 <= k < |projects| => projects[k].0)
  }

  function ChildOf(parent: Value): ((string, Project)) -> bool {
    (entry: (string, Project)) => entry.1.parent == Some(parent)
  }

  /** The ids of the projects whose `parent` is `parent`, in hash order. */
  function Children(projects: Projects, parent: Value): seq<string> {
    Ids(Filter(projects, ChildOf(parent)))
  }

  /** `projects[id]`. */
  function Lookup(projects: Projects, id: string): (r: Option<Project>)
    ensures r.Some? <==> id in Ids(projects)
    ensures r.Some? ==> (id, r.value) in projects
  {
    if projects == [] then None
    else if projects[0].0 == id then Some(projects[0].1)
    else
      var r := Lookup(projects[1..], id);
      assert r.Some? ==> id in Ids(projects[1..]);
      assert forall k :: 0 <= k < |projects| - 1 ==> Ids(projects[1..])[k] == Ids(projects)[k + 1];
      assert id in Ids(projects) ==> id in Ids(projects[1..]) by {
        if id in Ids(projects) {
          var k :| 0 <= k < |projects| && Ids(projects)[k] == id;
          assert k > 0;
          assert Ids(projects[1..])[k - 1] == id;
        }
      }
      r
  }

  // ---------------------------------------------------------------------
  // The parent index
  // ---------------------------------------------------------------------

  /** The parents named by the projects that have a `parent` key. */
  function Parents(projects: Projects): set<Value> {
    set e | e in projects && e.1.parent.Some? :: e.1.parent.value
  }

  /** `parent_map` as a value: each parent that occurs, with its children. */
  function ParentMapOf(projects: Projects): (r: map<Value, seq<string>>)
    ensures forall p :: p in r <==> exists k :: 0 <= k < |projects| && projects[k].1.parent == Some(p)
    ensures forall p :: p in r ==> r[p] == Children(projects, p)
    ensures forall p :: p in r ==> forall sid :: sid in r[p] ==> sid in Ids(projects)
  {
    var r := map p | p in Parents(projects) :: Children(projects, p);
    ParentMapIds(projects, r);
    forall p | p in Parents(projects)
      ensures exists k :: 0 <= k < |projects| && projects[k].1.parent == Some(p)
    {
      var e :| e in projects && e.1.parent == Some(p);
      var k :| 0 <= k < |projects| && projects[k] == e;
    }
    r
  }

  /** `parent_map`: a hash whose default block creates an empty list; each
      project with a `parent` key appends its id under that parent. */
  method BuildParentMap(projects: Projects) returns (parentMap: map<Value, seq<string>>)
    ensures parentMap == ParentMapOf(projects)
  {
    parentMap := map[];
    var i := 0;
    while i < |projects|
      invariant 0 <= i <= |projects|
      invariant IndexUpTo(projects, i, parentMap)
    {
      var (id, project) := projects[i];
      ghost var before := parentMap;
      if project.parent.Some? {
        var p := project.parent.value;
        if p !in parentMap {
          parentMap := parentMap[p := []];
        }
        parentMap := parentMap[p := parentMap[p] + [id]];
      }
      IndexStep(projects, i, before, parentMap);
      i := i + 1;
    }
    IndexComplete(projects, parentMap);
  }

  /** `index` is `parent_map` after the first `i` projects. */
  ghost predicate IndexUpTo(projects: Projects, i: nat, index: map<Value, seq<string>>)
    requires i <= |projects|
  {
    index.Keys == Parents(projects[..i])
    && forall q :: q in index ==> index[q] == Children(projects[..i], q)
  }

  /** One round of the loop extends the index by project `i`. */
  lemma IndexStep(projects: Projects, i: nat, before: map<Value, seq<string>>, after: map<Value, seq<string>>)
    requires i < |projects| && IndexUpTo(projects, i, before)
    requires var (id, project) := projects[i];
      after == if project.parent.None? then before
        else var p := project.parent.value;
          before[p := (if p in before then before[p] else []) + [id]]
    ensures IndexUpTo(projects, i + 1, after)
  {
    ParentsSnoc(projects, i);
    var parent := projects[i].1.parent;
    if parent.None? {
      forall q | q in after ensures after[q] == Children(projects[..i + 1], q) {
        ChildrenSnoc(projects, i, q);
      }
    } else {
      IndexStepSome(projects, i, before, after, parent.value);
    }
  }

  lemma IndexStepSome(projects: Projects, i: nat, before: map<Value, seq<string>>, after: map<Value, seq<string>>, p: Value)
    requires i < |projects| && IndexUpTo(projects, i, before)
    requires projects[i].1.parent == Some(p)
    requires after == before[p := (if p in before then before[p] else []) + [projects[i].0]]
    ensures IndexUpTo(projects, i + 1, after)
  {
    ParentsSnoc(projects, i);
    assert after.Keys == Parents(projects[..i + 1]);
    ChildrenSnoc(projects, i, p);
    if p !in before {
      NoChildren(projects[..i], p);
    }
    assert after[p] == Children(projects[..i + 1], p);
    forall q | q in after && q != p ensures after[q] == Children(projects[..i + 1], q) {
      ChildrenSnoc(projects, i, q);
    }
  }

  lemma IndexComplete(projects: Projects, index: map<Value, seq<string>>)
    requires IndexUpTo(projects, |projects|, index)
    ensures index == ParentMapOf(projects)
  {
    assert projects[..|projects|] == projects;
  }

  lemma ParentsSnoc(projects: Projects, i: nat)
    requires i < |projects|
    ensures Parents(projects[..i + 1])
         == Parents(projects[..i]) + (if projects[i].1.parent.Some? then {projects[i].1.parent.value} else {})
  {
    assert projects[..i + 1] == projects[..i] + [projects[i]];
  }

  lemma ChildrenSnoc(projects: Projects, i: nat, p: Value)
    requires i < |projects|
    ensures Children(projects[..i + 1], p)
         == Children(projects[..i], p) + (if projects[i].1.parent == Some(p) then [projects[i].0] else [])
  {
    assert projects[..i + 1] == projects[..i] + [projects[i]];
    FilterSnoc(projects[..i], projects[i], ChildOf(p));
  }

  lemma NoChildren(projects: Projects, p: Value)
    requires p !in Parents(projects)
    ensures Children(projects, p) == []
  {
    FilterNone(projects, ChildOf(p));
  }

  /** Every id listed under a parent names a project with that `parent`,
      so a project without a `parent` key is in no list. */
  lemma ChildrenHaveParent(projects: Projects, p: Value)
    requires UniqueIds(projects)
    ensures forall id :: id in Children(projects, p) ==>
      exists k :: 0 <= k < |projects| && projects[k].0 == id && projects[k].1.parent == Some(p)
  {
    var kids := Filter(projects, ChildOf(p));
    forall id | id in Children(projects, p)
      ensures exists k :: 0 <= k < |projects| && projects[k].0 == id && projects[k].1.parent == Some(p)
    {
      var m :| 0 <= m < |kids| && Ids(kids)[m] == id;
      FilterMembers(projects, ChildOf(p));
      assert kids[m] in kids;
      var k :| 0 <= k < |projects| && projects[k] == kids[m];
    }
  }

  // ---------------------------------------------------------------------
  // Shaping the document
  // ---------------------------------------------------------------------

  datatype SubprojectElt = SubprojectElt(ref: Value, inheritMembers: bool)
  datatype MemberElt = MemberElt(isLead: bool, email: Value, name: Value, role: Option<Value>)
  datatype ProjectElt = ProjectElt(
    email: Value, name: Value, url: Value, description: Value,
    subprojects: seq<SubprojectElt>, members: seq<MemberElt>)

  /** The `<subproject>` elements of project `id`: one per id in
      `parent_map[id]`, in that order, none when there is no entry. */
  function Subprojects(projects: Projects, parentMap: map<Value, seq<string>>, id: string): (r: seq<SubprojectElt>)
    requires forall p :: p in parentMap ==> forall sid :: sid in parentMap[p] ==> sid in Ids(projects)
    ensures Str(id) !in parentMap ==> r == []
    ensures Str(id) in parentMap ==> |r| == |parentMap[Str(id)]|
    ensures Str(id) in parentMap ==> forall k :: 0 <= k < |r| ==>
      var sub := Lookup(projects, parentMap[Str(id)][k]).value;
      r[k].ref == sub.email && (r[k].inheritMembers <==> Truthy(sub.propagatesMembers))
  {
    if Str(id) !in parentMap then []
    else
      var ids := parentMap[Str(id)];
      seq(|ids|, k requires 0 <= k < |ids| =>
        var sub := Lookup(projects, ids[k]).value;
        SubprojectElt(sub.email, Truthy(sub.propagatesMembers)))
  }

  /** The `casecmp` key of a member with a string nickname. */
  function NicknameKey(m: Member): string {
    if m.nickname.Str? then AsciiLower(m.nickname.s) else []
  }

  /** `project['members'].sort { casecmp of nicknames }`: `None` where it
      raises (neither a member array nor an empty object; or at least two members, so the block runs on
      every member, and some nickname is not a string). */
  function SortMembers(members: Option<seq<Member>>): (r: Option<seq<Member>>)
    ensures r.None? <==> members.None? || (|members.value| >= 2 && exists m :: m in members.value && !m.nickname.Str?)
    ensures r.Some? ==> SortedBy(r.value, NicknameKey) && multiset(r.value) == multiset(members.value)
  {
    if members.None? then None
    else if |members.value| >= 2 && exists m :: m in members.value && !m.nickname.Str? then None
    else Some(SortBy(members.value, NicknameKey))
  }

  /** `role.empty?`: `None` where the value has no `empty?` (NoMethodError). */
  function IsEmpty(v: Value): Option<bool> {
    match v
    case Str(s) => Some(s == [])
    case Arr(n) => Some(n == 0)
    case Obj(n) => Some(n == 0)
    case _ => None
  }

  /** One `<member>`: `is-lead="1"` when `is_lead` is truthy; a `<role>`
      when the key is there and its value is not empty. `None` where the
      emptiness test raises. */
  function MemberElement(m: Member): (r: Option<MemberElt>)
    ensures r.None? <==> m.role.Some? && IsEmpty(m.role.value).None?
    ensures r.Some? ==> (r.value.isLead <==> Truthy(m.isLead))
    ensures r.Some? ==> (r.value.role.Some? <==> m.role.Some? && !IsEmpty(m.role.value).value)
    ensures r.Some? && r.value.role.Some? ==> r.value.role == m.role
    ensures r.Some? ==> r.value.email == m.email && r.value.name == m.name
  {
    if m.role.Some? && IsEmpty(m.role.value).None? then None
    else
      var role := if m.role.Some? && !IsEmpty(m.role.value).value then m.role else None;
      Some(MemberElt(Truthy(m.isLead), m.email, m.name, role))
  }

  /** The members' elements in order; `None` at the first that raises. */
  function MemberElements(members: seq<Member>): (r: Option<seq<MemberElt>>)
    ensures r.None? <==> exists m :: m in members && MemberElement(m).None?
    ensures r.Some? ==> |r.value| == |members|
    ensures r.Some? ==> forall k :: 0 <= k < |members| ==> MemberElement(members[k]) == Some(r.value[k])
  {
    if members == [] then Some([])
    else
      match MemberElement(members[0])
      case None => None
      case Some(first) =>
        match MemberElements(members[1..])
        case None =>
          assert forall m :: m in members[1..] ==> m in members;
          None
        case Some(rest) =>
          assert forall m :: m in members ==> m == members[0] || m in members[1..];
          Some([first] + rest)
  }

  /** One `<project>` element, or `None` where building it raises. */
  function ProjectElement(projects: Projects, parentMap: map<Value, seq<string>>, id: string, project: Project): Option<ProjectElt>
    requires forall p :: p in parentMap ==> forall sid :: sid in parentMap[p] ==> sid in Ids(projects)
  {
    match SortMembers(project.members)
    case None => None
    case Some(sorted) =>
      match MemberElements(sorted)
      case None => None
      case Some(members) =>
        Some(ProjectElt(project.email, project.name, project.href, project.description,
                        Subprojects(projects, parentMap, id), members))
  }

  /** A `<project>` element lists the project's subprojects and its members
      in sorted order; building it raises exactly when sorting the members
      or building one of their elements does. */
  lemma ProjectElementParts(projects: Projects, parentMap: map<Value, seq<string>>, id: string, project: Project)
    requires forall p :: p in parentMap ==> forall sid :: sid in parentMap[p] ==> sid in Ids(projects)
    ensures var r := ProjectElement(projects, parentMap, id, project);
      r.Some? ==>
        (r.value.subprojects == Subprojects(projects, parentMap, id)
         && SortMembers(project.members).Some?
         && MemberElements(SortMembers(project.members).value) == Some(r.value.members))
    ensures ProjectElement(projects, parentMap, id, project).None? <==>
      SortMembers(project.members).None? || MemberElements(SortMembers(project.members).value).None?
  {
  }

  /** The listed ids are ids of projects, so every subproject lookup succeeds. */
  lemma ParentMapIds(projects: Projects, parentMap: map<Value, seq<string>>)
    requires forall p :: p in parentMap ==> parentMap[p] == Children(projects, p)
    ensures forall p :: p in parentMap ==> forall sid :: sid in parentMap[p] ==> sid in Ids(projects)
  {
    forall p, sid | p in parentMap && sid in parentMap[p] ensures sid in Ids(projects) {
      var kids := Filter(projects, ChildOf(p));
      var m :| 0 <= m < |kids| && Ids(kids)[m] == sid;
      FilterMembers(projects, ChildOf(p));
      assert kids[m] in kids;
      var k :| 0 <= k < |projects| && projects[k] == kids[m];
      assert Ids(projects)[k] == sid;
    }
  }

  // ---------------------------------------------------------------------
  // Writing the file
  // ---------------------------------------------------------------------

  datatype FileState = Missing | Present(content: string)

  /** `File.read`, with a missing file read as `''`. */
  function CurrentText(f: FileState): string {
    if f.Missing? then [] else f.content
  }

  /** What the script does to the file: whether it calls `File.write`, and
      the file afterwards. It writes exactly when the generated text differs
      from what it reads. */
  function AfterWrite(f: FileState, generated: string): (r: (FileState, bool))
    ensures r.1 <==> generated != CurrentText(f)
    ensures !r.1 ==> r.0 == f
    ensures r.1 ==> r.0 == Present(generated)
    ensures CurrentText(r.0) == generated
  {
    if generated == CurrentText(f) then (f, false) else (Present(generated), true)
  }

  /** The file is touched only if its contents change: the script writes
      exactly when the file afterwards differs from the file before. */
  lemma WrittenIffChanged(f: FileState, generated: string)
    ensures AfterWrite(f, generated).1 <==> AfterWrite(f, generated).0 != f
  {
    if AfterWrite(f, generated).1 {
      assert CurrentText(AfterWrite(f, generated).0) != CurrentText(f);
    }
  }

  /** A second run with the same generated text does not write, and leaves
      the file as the first run left it. */
  lemma WriteIdempotent(f: FileState, generated: string)
    ensures !AfterWrite(AfterWrite(f, generated).0, generated).1
    ensures AfterWrite(AfterWrite(f, generated).0, generated).0 == AfterWrite(f, generated).0
  {
  }

  /** An empty document is not written over a missing file. */
  lemma EmptyOverMissing()
    ensures AfterWrite(Missing, []) == (Missing, false)
    ensures AfterWrite(Missing, "x") == (Present("x"), true)
  {
  }

  /** The script up to the text output: the parent index, then one
      `<project>` element per project in hash order, stopping where building
      one raises. */
  method Generate(projects: Projects) returns (doc: Option<seq<ProjectElt>>)
    ensures var pm := ParentMapOf(projects);
      doc.None? <==> exists k :: 0 <= k < |projects| && ProjectElement(projects, pm, projects[k].0, projects[k].1).None?
    ensures doc.Some? ==> |doc.value| == |projects|
    ensures doc.Some? ==> forall k :: 0 <= k < |projects| ==>
      ProjectElement(projects, ParentMapOf(projects), projects[k].0, projects[k].1) == Some(doc.value[k])
  {
    var parentMap := BuildParentMap(projects);
    var elts: seq<ProjectElt> := [];
    var i := 0;
    while i < |projects|
      invariant 0 <= i <= |projects| && |elts| == i
      invariant forall k :: 0 <= k < i ==>
        ProjectElement(projects, parentMap, projects[k].0, projects[k].1) == Some(elts[k])
    {
      var (id, project) := projects[i];
      var elt := ProjectElement(projects, parentMap, id, project);
      if elt.None? {
        return None;
      }
      elts := elts + [elt.value];
      i := i + 1;
    }
    doc := Some(elts);
  }

  /** Each `<project>` lists exactly its subprojects, in hash order. */
  lemma GeneratedSubprojects(projects: Projects, doc: seq<ProjectElt>, k: nat)
    requires k < |projects| && k < |doc|
    requires ProjectElement(projects, ParentMapOf(projects), projects[k].0, projects[k].1) == Some(doc[k])
    ensures Str(projects[k].0) in Parents(projects) ==>
      |doc[k].subprojects| == |Children(projects, Str(projects[k].0))|
    ensures Str(projects[k].0) !in Parents(projects) ==> doc[k].subprojects == []
  {
  }

  /** Members come out in `casecmp` order of nickname and none is lost or
      added; ties come out in input order in this model, one of the orders
      Ruby's unstable sort may produce. */
  lemma MembersOrdered(projects: Projects, parentMap: map<Value, seq<string>>, id: string, project: Project)
    requires forall p :: p in parentMap ==> forall sid :: sid in parentMap[p] ==> sid in Ids(projects)
    requires ProjectElement(projects, parentMap, id, project).Some?
    ensures var sorted := SortMembers(project.members).value;
      var elts := ProjectElement(projects, parentMap, id, project).value.members;
      |elts| == |sorted| && SortedBy(sorted, NicknameKey)
      && multiset(sorted) == multiset(project.members.value)
      && forall k :: 0 <= k < |sorted| ==> MemberElement(sorted[k]) == Some(elts[k])
  {
    ProjectElementParts(projects, parentMap, id, project);
  }
}
