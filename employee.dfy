/** The Employee model (models/employee.js) over an in-memory `employees`
    table, the `skills` table it joins with, and the `employee_skills`
    association, a set of (employee id, skill id) pairs. As for users, the
    functions ending in `On` say what each operation does to given tables and
    the class is proved to meet them. */
module EmployeeModel {
  import opened Wrappers
  import opened Js
  import opened Text
  import opened Database

  /** The columns of the `employees` table, all of which every query returns. */
  const Columns: set<string> :=
    {"employee_id", "firstname", "lastname", "email", "extension", "ms_teams_link", "department", "office_location"}

  /** The columns `getSkills` returns. */
  const SkillColumns: set<string> := {"skill_id", "skill_name"}

  /** `employee_skills`: (employee_id, skill_id) pairs, each at most once. */
  type Associations = set<(int, int)>

  /** Every row has exactly the table's columns and `employee_id` is the key. */
  predicate WellFormed(t: Table) {
    && (forall i :: 0 <= i < |t| ==> t[i].Keys == Columns)
    && KeyConstraint(t, "employee_id")
  }

  /** The message `get` and `update` throw for an absent id. */
  function NoEmployeeFound(id: int): Error {
    NotFound("No employee found with id: " + IntToString(id))
  }

  /** A template literal's rendering of a scalar. */
  function Render(v: Value): string {
    match v
    case Undefined => "undefined"
    case Null => "null"
    case Bool(b) => if b then "true" else "false"
    case Num(n) => IntToString(n)
    case Str(s) => s
  }

  /** The search string of `findAll`: `query.search || ''`, as interpolated
      into the pattern. */
  function SearchTerm(query: Obj): (term: string)
    ensures !Truthy(Get(query, "search")) ==> term == ""
    ensures Get(query, "search").Str? ==> term == Get(query, "search").s
  {
    Render(Or(Get(query, "search"), Str("")))
  }

  /** `v ILIKE '%term%'`: a text value containing `term`, ignoring case. A
      NULL column never matches. */
  function ILike(v: Value, term: string): (b: bool)
    ensures b <==> v.Str? && OccursIn(Lower(term), Lower(v.s))
  {
    v.Str? && (ContainsIffOccurs(Lower(v.s), Lower(term)); Contains(Lower(v.s), Lower(term)))
  }

  /** The columns the search compares against the term. */
  const SearchedColumns: set<string> := {"firstname", "lastname", "email", "department", "extension", "office_location"}

  /** The WHERE clause of `findAll`: six of the eight columns are searched;
      `employee_id` and `ms_teams_link` are not. */
  function SearchHit(row: Row, term: string): (b: bool)
    ensures b <==> exists c :: c in SearchedColumns && ILike(Get(row, c), term)
  {
    || ILike(Get(row, "firstname"), term)
    || ILike(Get(row, "lastname"), term)
    || ILike(Get(row, "email"), term)
    || ILike(Get(row, "department"), term)
    || ILike(Get(row, "extension"), term)
    || ILike(Get(row, "office_location"), term)
  }

  /** The rows of `t` the search matches, in table order. */
  function Search(t: Table, term: string): (r: Table)
    ensures |r| <= |t|
    ensures forall row :: row in r <==> row in t && SearchHit(row, term)
  {
    if t == [] then []
    else (if SearchHit(t[0], term) then [t[0]] else []) + Search(t[1..], term)
  }

  /** `Employee.findAll(query)` on table `t`: whole rows (`SELECT *`) that
      the search matches, and no others. */
  function FindAllOn(t: Table, query: Obj): (r: Table)
    ensures forall row :: row in r <==> row in t && SearchHit(row, SearchTerm(query))
  {
    Search(t, SearchTerm(query))
  }

  /** `Employee.get(id)` on table `t`. */
  function GetOn(t: Table, id: int): (r: Result<Obj>)
    ensures r.Ok? <==> Find(t, "employee_id", Num(id)).Some?
    ensures r.Ok? ==> r.value == Project(t[Find(t, "employee_id", Num(id)).value], Columns)
    ensures r.Err? ==> r.error == NoEmployeeFound(id)
  {
    match Find(t, "employee_id", Num(id))
    case Some(i) => Ok(Project(t[i], Columns))
    case None => Err(NoEmployeeFound(id))
  }

  /** `Employee.update(id, data)` on table `t`: the result and the table
      after. The partial update is compiled with an empty translation table,
      so each property names its own column. */
  function UpdateOn(t: Table, id: int, data: Props): (r: (Result<Obj>, Table))
    requires WellFormed(t)
    ensures WellFormed(r.1)
    ensures r.0.Err? ==> r.1 == t
    ensures r.0.Ok? ==> Find(t, "employee_id", Num(id)).Some? && r.0.value.Keys == Columns
  {
    match UpdateRows(t, Columns, "employee_id", Num(id), data, Columns)
    case Err(e) => (Err(e), t)
    case Ok((t', rows)) =>
      UpdateRowsOnEmployees(t, id, data);
      if rows == [] then (Err(NoEmployeeFound(id)), t')
      else (Ok(rows[0]), t')
  }

  /** `Employee.remove(id)` on the employee table and the association: the
      row goes, and with it (by the foreign key's cascade) every association
      of that employee. */
  function RemoveOn(t: Table, es: Associations, id: int): (r: (Result<()>, Table, Associations))
    requires WellFormed(t)
    ensures WellFormed(r.1)
    ensures r.0.Ok? <==> Find(t, "employee_id", Num(id)).Some?
    ensures r.0.Err? ==> r == (Err(NotFound("No employee with id: " + IntToString(id))), t, es)
    ensures forall row :: row in r.1 <==> row in t && !Matches(row, "employee_id", Num(id))
    ensures r.0.Ok? ==> forall p :: p in r.2 <==> p in es && p.0 != id
  {
    if Find(t, "employee_id", Num(id)).Some? then
      var d := DeleteWhere(t, "employee_id", Num(id));
      DeleteKeepsKey(t, "employee_id", "employee_id", Num(id));
      assert forall i :: 0 <= i < |d| ==> d[i] in t;
      (Ok(()), d, set p | p in es && p.0 != id)
    else (Err(NotFound("No employee with id: " + IntToString(id))), t, es)
  }

  /** The single `DELETE ... RETURNING employee_id` that `remove` issues,
      together with the cascade on `employee_skills` that the model assumes,
      gives `RemoveOn`. */
  lemma RemoveStatementsMeetRemoveOn(t: Table, es: Associations, id: int)
    requires WellFormed(t)
    ensures var deleted := ProjectAll(SelectWhere(t, "employee_id", Num(id)), {"employee_id"});
      var t' := DeleteWhere(t, "employee_id", Num(id));
      RemoveOn(t, es, id) ==
        if |deleted| == 0 then (Err(NotFound("No employee with id: " + IntToString(id))), t', es)
        else (Ok(()), t', set p | p in es && p.0 != id)
  {
    SelectByKey(t, "employee_id", Num(id));
    if Find(t, "employee_id", Num(id)).None? {
      DeleteNothing(t, "employee_id", Num(id));
    }
  }

  /** An employee row joined with the association on `skill`. */
  predicate HasSkill(row: Row, es: Associations, skill: int) {
    Get(row, "employee_id").Num? && (Get(row, "employee_id").n, skill) in es
  }

  /** `Employee.findBySkill(skill)`: the employees the association links to
      `skill`, in table order. */
  function FindBySkillOn(t: Table, es: Associations, skill: int): (r: Table)
    ensures forall row :: row in r <==> exists e :: e in t && HasSkill(e, es, skill) && row == Project(e, Columns)
  {
    ProjectAll(SkillFilter(t, es, skill), Columns)
  }

  function SkillFilter(t: Table, es: Associations, skill: int): (r: Table)
    ensures forall row :: row in r <==> row in t && HasSkill(row, es, skill)
  {
    if t == [] then []
    else (if HasSkill(t[0], es, skill) then [t[0]] else []) + SkillFilter(t[1..], es, skill)
  }

  /** A skill row joined with the association on employee `id`. */
  predicate SkillOf(s: Row, es: Associations, id: int) {
    Get(s, "skill_id").Num? && (id, Get(s, "skill_id").n) in es
  }

  function OwnSkills(skills: Table, es: Associations, id: int): (r: Table)
    ensures forall row :: row in r <==> row in skills && SkillOf(row, es, id)
  {
    if skills == [] then []
    else (if SkillOf(skills[0], es, id) then [skills[0]] else []) + OwnSkills(skills[1..], es, id)
  }

  /** `Employee.getSkills(id)`: id and name of every skill the association
      links to employee `id`. */
  function GetSkillsOn(skills: Table, es: Associations, id: int): (r: Table)
    ensures forall row :: row in r <==> exists s :: s in skills && SkillOf(s, es, id) && row == Project(s, SkillColumns)
  {
    ProjectAll(OwnSkills(skills, es, id), SkillColumns)
  }

  /** `Employee.create(data)` as written: the parameter list names
      identifiers the method never declares (it receives only `data`), so
      building it throws a ReferenceError before any query is sent; the
      statement itself lists eight columns against seven placeholders, and
      its RETURNING list lacks a comma after `employee_id`. */
  function CreateAsWritten(t: Table, data: Obj): (r: (Result<Obj>, Table))
    ensures r.0.Err? && r.1 == t
  {
    (Err(ServerError), t)
  }

  /** `Employee.create(data)` as evidently intended: the eight columns of
      `data` are inserted (undefined as NULL), and the new row is returned;
      a NULL or taken `employee_id` violates the primary key. */
  function CreateOn(t: Table, data: Obj): (r: (Result<Obj>, Table))
    requires WellFormed(t)
    ensures WellFormed(r.1)
    ensures r.0.Ok? <==> ToParam(Get(data, "employee_id")) != Null && forall i :: 0 <= i < |t| ==> Get(t[i], "employee_id") != Get(data, "employee_id")
    ensures r.0.Ok? ==> r.1 == t + [r.0.value] && r.0.value.Keys == Columns
    ensures r.0.Err? ==> r == (Err(ServerError), t)
  {
    var row := map k | k in Columns :: ToParam(Get(data, k));
    assert Get(row, "employee_id") == ToParam(Get(data, "employee_id"));
    match Insert(t, "employee_id", row)
    case Ok(t') => (Ok(row), t')
    case Err(e) => (Err(e), t)
  }

  /** The `Employee` class bound to the database's tables. */
  class Employee {
    var employees: Table
    var employeeSkills: Associations
    var skills: Table

    ghost predicate Valid()
      reads this
    {
      WellFormed(employees)
    }

    constructor (employees: Table, employeeSkills: Associations, skills: Table)
      requires WellFormed(employees)
      ensures Valid()
      ensures this.employees == employees && this.employeeSkills == employeeSkills && this.skills == skills
    {
      this.employees := employees;
      this.employeeSkills := employeeSkills;
      this.skills := skills;
    }

    method Create(data: Obj) returns (r: Result<Obj>)
      requires Valid()
      modifies this
      ensures Valid()
      ensures (r, employees) == CreateOn(old(employees), data)
      ensures employeeSkills == old(employeeSkills) && skills == old(skills)
    {
      var row := map k | k in Columns :: ToParam(Js.Get(data, k));
      var result := Insert(employees, "employee_id", row);
      if result.Err? {
        return Err(ServerError);
      }
      employees := result.value;
      return Ok(row);
    }

    method FindAll(query: Obj) returns (r: Table)
      ensures r == FindAllOn(employees, query)
    {
      r := FindAllOn(employees, query);
    }

    method Get(id: int) returns (r: Result<Obj>)
      requires Valid()
      ensures r == GetOn(employees, id)
    {
      SelectByKey(employees, "employee_id", Num(id));
      var empRes := ProjectAll(SelectWhere(employees, "employee_id", Num(id)), Columns);
      if |empRes| == 0 {
        return Err(NoEmployeeFound(id));
      }
      return Ok(empRes[0]);
    }

    method Update(id: int, data: Props) returns (r: Result<Obj>)
      requires Valid()
      modifies this
      ensures Valid()
      ensures (r, employees) == UpdateOn(old(employees), id, data)
      ensures employeeSkills == old(employeeSkills) && skills == old(skills)
    {
      ghost var spec := UpdateOn(employees, id, data);
      var pu := SqlForPartialUpdate(data, map[]);
      var idVarIdx := |pu.values| + 1;
      var q := UpdateStatement(pu.setCols, "employee_id", idVarIdx, Columns);
      var result := ExecUpdate(employees, Columns, "employee_id", q, pu.values + [Num(id)]);
      UpdateStatementMeetsUpdateOn(employees, id, data, result);
      if result.Err? {
        r := Err(result.error);
      } else {
        employees := result.value.0;
        var rows := result.value.1;
        r := if |rows| == 0 then Err(NoEmployeeFound(id)) else Ok(rows[0]);
      }
      assert (r, employees) == spec;
    }

    method Remove(id: int) returns (r: Result<()>)
      requires Valid()
      modifies this
      ensures Valid()
      ensures (r, employees, employeeSkills) == RemoveOn(old(employees), old(employeeSkills), id)
      ensures skills == old(skills)
    {
      RemoveStatementsMeetRemoveOn(employees, employeeSkills, id);
      var deleted := ProjectAll(SelectWhere(employees, "employee_id", Num(id)), {"employee_id"});
      employees := DeleteWhere(employees, "employee_id", Num(id));
      if |deleted| == 0 {
        r := Err(NotFound("No employee with id: " + IntToString(id)));
      } else {
        employeeSkills := set p | p in employeeSkills && p.0 != id;
        r := Ok(());
      }
    }

    method FindBySkill(skill: int) returns (r: Table)
      ensures r == FindBySkillOn(employees, employeeSkills, skill)
    {
      r := FindBySkillOn(employees, employeeSkills, skill);
    }

    method GetSkills(id: int) returns (r: Table)
      ensures r == GetSkillsOn(skills, employeeSkills, id)
    {
      r := GetSkillsOn(skills, employeeSkills, id);
    }
  }

  /** A successful partial update of the employees table keeps it well
      formed, returns a row exactly when the employee exists, and changes
      nothing when it does not. */
  lemma UpdateRowsOnEmployees(t: Table, id: int, data: Props)
    requires WellFormed(t)
    requires UpdateRows(t, Columns, "employee_id", Num(id), data, Columns).Ok?
    ensures var (t', rows) := UpdateRows(t, Columns, "employee_id", Num(id), data, Columns).value;
      && WellFormed(t')
      && (rows == [] <==> Find(t, "employee_id", Num(id)).None?)
      && (rows == [] ==> t' == t)
      && (rows != [] ==> rows[0].Keys == Columns)
  {
    var t' := UpdateRows(t, Columns, "employee_id", Num(id), data, Columns).value.0;
    forall i | 0 <= i < |t'| ensures t'[i].Keys == Columns {
      OverwriteKeys(t[i], data);
    }
    match Find(t, "employee_id", Num(id))
    case None => UpdateRowsNoMatch(t, Columns, "employee_id", Num(id), data, Columns);
    case Some(i) => UpdateRowsHit(t, Columns, "employee_id", Num(id), data, Columns, i);
  }

  /** The UPDATE that `update` builds (WHERE placeholder `values.length + 1`,
      parameters `[...values, employee_id]`) has the effect `UpdateOn`
      describes. */
  lemma UpdateStatementMeetsUpdateOn(t: Table, id: int, data: Props, res: Result<(Table, Table)>)
    requires WellFormed(t)
    requires var pu := SqlForPartialUpdate(data, map[]);
      res == ExecUpdate(t, Columns, "employee_id", UpdateStatement(pu.setCols, "employee_id", |pu.values| + 1, Columns), pu.values + [Num(id)])
    ensures res.Err? ==> UpdateOn(t, id, data) == (Err(res.error), t)
    ensures res.Ok? ==> UpdateOn(t, id, data) == (if res.value.1 == [] then Err(NoEmployeeFound(id)) else Ok(res.value.1[0]), res.value.0)
  {
    PartialUpdateAligned(t, Columns, "employee_id", data, map[], Num(id), Columns);
    RenamedByIdentity(data, map[]);
  }

  /** The search ignores case in the search string. */
  lemma {:induction false} SearchIgnoresCase(t: Table, term: string, term2: string)
    requires Lower(term) == Lower(term2)
    ensures Search(t, term) == Search(t, term2)
  {
    if t != [] {
      SearchIgnoresCase(t[1..], term, term2);
    }
  }

  /** Changing an employee's `ms_teams_link` never changes whether the
      search finds it. */
  lemma TeamsLinkNotSearched(row: Row, term: string, link: Value)
    ensures SearchHit(row["ms_teams_link" := link], term) == SearchHit(row, term)
  {
    assert forall c :: c != "ms_teams_link" ==> Get(row["ms_teams_link" := link], c) == Get(row, c);
  }

  /** With no search string every row with a text-valued searched column is
      returned, so on a table whose first names are all set, every row. */
  lemma EmptySearchFindsEveryRow(t: Table, query: Obj)
    requires !Truthy(Get(query, "search"))
    ensures forall row :: row in FindAllOn(t, query) <==>
      && row in t
      && (|| Get(row, "firstname").Str? || Get(row, "lastname").Str? || Get(row, "email").Str?
          || Get(row, "department").Str? || Get(row, "extension").Str? || Get(row, "office_location").Str?)
  {
    forall s: string ensures Contains(Lower(s), Lower("")) {
      ContainsEmpty(Lower(s));
    }
  }

  /** The search returns only stored rows, and no row more often than it is
      stored. */
  lemma {:induction false} SearchReturnsStoredRows(t: Table, term: string)
    ensures multiset(Search(t, term)) <= multiset(t)
  {
    if t != [] {
      SearchReturnsStoredRows(t[1..], term);
      assert t == [t[0]] + t[1..];
    }
  }

  /** Updating an employee who does not exist reports NotFound and changes
      nothing, given data the statement accepts. */
  lemma UpdateMissingEmployeeNotFound(t: Table, id: int, data: Props)
    requires WellFormed(t)
    requires Find(t, "employee_id", Num(id)).None?
    requires data != [] && KeysOf(data) <= Columns && DistinctKeys(data)
    ensures UpdateOn(t, id, data) == (Err(NoEmployeeFound(id)), t)
  {
    var w := ToParam(Num(id));
    var t' := seq(|t|, i requires 0 <= i < |t| => if Matches(t[i], "employee_id", w) then Overwrite(t[i], data) else t[i]);
    assert t' == t;
    UpdateRowsOnEmployees(t, id, data);
  }

  /** Updating an existing employee writes each supplied property to its
      column, keeps every other column and every other row, and returns the
      updated row. */
  lemma UpdateWritesEmployee(t: Table, id: int, data: Props, i: nat)
    requires WellFormed(t)
    requires i < |t| && Get(t[i], "employee_id") == Num(id)
    requires data != [] && KeysOf(data) <= Columns && DistinctKeys(data) && "employee_id" !in KeysOf(data)
    ensures var (r, t') := UpdateOn(t, id, data);
      && r == Ok(Project(t'[i], Columns))
      && |t'| == |t|
      && (forall j :: 0 <= j < |t| && j != i ==> t'[j] == t[j])
      && (forall k :: Get(t'[i], k) == if k in KeysOf(data) then ToParam(Lookup(data, k)) else Get(t[i], k))
  {
    UpdateKeepsKey(t, "employee_id", Num(id), data);
    UpdateRowsOnEmployees(t, id, data);
    UpdateRowsHit(t, Columns, "employee_id", Num(id), data, Columns, i);
    var t' := UpdateOn(t, id, data).1;
    forall k ensures Get(t'[i], k) == if k in KeysOf(data) then ToParam(Lookup(data, k)) else Get(t[i], k) {
      OverwriteGet(t[i], data, k);
    }
  }

  /** Removing an employee makes it unknown to get, to a second remove and to
      getSkills. */
  lemma RemoveForgetsEmployee(t: Table, es: Associations, skills: Table, id: int)
    requires WellFormed(t)
    requires Find(t, "employee_id", Num(id)).Some?
    ensures var (_, t', es') := RemoveOn(t, es, id);
      && GetOn(t', id) == Err(NoEmployeeFound(id))
      && RemoveOn(t', es', id).0 == Err(NotFound("No employee with id: " + IntToString(id)))
      && GetSkillsOn(skills, es', id) == []
  {
    var (_, t', es') := RemoveOn(t, es, id);
    forall j | 0 <= j < |t'| ensures !Matches(t'[j], "employee_id", Num(id)) {
      assert t'[j] in t';
    }
    assert Find(t', "employee_id", Num(id)).None?;
    OwnSkillsNone(skills, es', id);
  }

  /** Removing an employee leaves every other employee as it was. */
  lemma RemoveKeepsOthers(t: Table, es: Associations, id: int, other: int)
    requires WellFormed(t)
    requires other != id
    ensures GetOn(RemoveOn(t, es, id).1, other) == GetOn(t, other)
  {
    FindSameRow(t, RemoveOn(t, es, id).1, "employee_id", Num(other));
  }

  /** Removing an employee leaves the skills of every other employee as they
      were. */
  lemma RemoveKeepsOthersSkills(t: Table, es: Associations, skills: Table, id: int, other: int)
    requires WellFormed(t)
    requires other != id
    ensures GetSkillsOn(skills, RemoveOn(t, es, id).2, other) == GetSkillsOn(skills, es, other)
  {
    var (r, _, es') := RemoveOn(t, es, id);
    if r.Ok? {
      OwnSkillsSameAssociations(skills, es, es', other);
    }
  }

  lemma {:induction false} OwnSkillsSameAssociations(skills: Table, es: Associations, es': Associations, id: int)
    requires forall k :: (id, k) in es <==> (id, k) in es'
    ensures OwnSkills(skills, es, id) == OwnSkills(skills, es', id)
  {
    if skills != [] {
      OwnSkillsSameAssociations(skills[1..], es, es', id);
    }
  }

  lemma {:induction false} OwnSkillsNone(skills: Table, es: Associations, id: int)
    requires forall k :: (id, k) !in es
    ensures OwnSkills(skills, es, id) == []
  {
    if skills != [] {
      OwnSkillsNone(skills[1..], es, id);
    }
  }

  /** A skill no employee is linked to yields an empty result, not an error. */
  lemma {:induction false} UnknownSkillFindsNobody(t: Table, es: Associations, skill: int)
    requires forall e :: (e, skill) !in es
    ensures FindBySkillOn(t, es, skill) == []
  {
    if t != [] {
      UnknownSkillFindsNobody(t[1..], es, skill);
    }
  }

  /** Creating an employee with a fresh id makes it known to get, with the
      columns supplied. */
  lemma CreateThenGet(t: Table, data: Obj, id: int)
    requires WellFormed(t)
    requires Get(data, "employee_id") == Num(id) && Find(t, "employee_id", Num(id)).None?
    ensures var (r, t') := CreateOn(t, data);
      r.Ok? && GetOn(t', id) == Ok(r.value) && forall k :: k in Columns ==> r.value[k] == ToParam(Get(data, k))
  {
    var (r, t') := CreateOn(t, data);
    assert r.Ok?;
    KeyFindsThatRow(t', "employee_id", Num(id), |t|);
    assert Project(r.value, Columns) == r.value;
  }

  /** The create in the source fails on every input on which the intended
      one succeeds. */
  lemma CreateAsWrittenNeverSucceeds(t: Table, data: Obj)
    requires WellFormed(t) && CreateOn(t, data).0.Ok?
    ensures CreateAsWritten(t, data).0 != CreateOn(t, data).0
  {
  }
}
