/** Family accounts over whole runs: an active one always has a child, and only deleting its last child
    deactivates it. And what an import of students does to the roster. */
module Families {
  import opened Options
  import opened Centers
  import opened CentersRuns

  ghost predicate HasChild(db: Db, u: Uid)
    requires u in db.users
  {
    db.users[u].active && Linkable(db.users[u].role) ==> HasLink(db, u)
  }

  ghost predicate FamiliesOk(db: Db) {
    forall u :: u in db.users ==> HasChild(db, u)
  }

  lemma AddStudentFamilies(db: Db, student: Student)
    requires FamiliesOk(db)
    ensures FamiliesOk(AddStudent(db, student))
  {
  }

  lemma LinkingFamilies(db: Db, s: Sid, emails: set<Email>)
    requires FamiliesOk(db)
    ensures FamiliesOk(LinkAccountsByEmail(db, s, emails))
  {
  }

  lemma StillLinked(db: Db, after: Db, u: Uid)
    requires u in db.users && u in after.users && HasChild(db, u) && after.users[u].role == db.users[u].role
    requires after.users[u].active ==> db.users[u].active
    requires forall l :: l in db.links && l.0 == u ==> l in after.links
    ensures HasChild(after, u)
  {
  }

  lemma RegisterFamilies(db: Db, actor: Uid, r: Registration)
    requires FamiliesOk(db) && IsStaff(db, actor) && RegisterUser(db, actor, r).Ok?
    ensures FamiliesOk(RegisterUser(db, actor, r).value)
  {
  }

  lemma EditLinksOthers(db: Db, actor: Uid, id: Uid, plan: Plan)
    requires actor in db.users && id in db.users && EditLinks(db, actor, id, plan).Ok?
    ensures var after := EditLinks(db, actor, id, plan).value;
            && after.users.Keys == db.users.Keys && after.users[id].role == plan.role
            && (forall u :: u in db.users && u != id ==> after.users[u] == db.users[u])
            && (forall l: (Uid, Sid) :: l.0 != id ==> (l in after.links <==> l in db.links))
  {
  }

  lemma MovedFamilies(db: Db, t: Uid, from': Option<CenterId>, to: Option<CenterId>, action: StudentAction)
    requires ResolveStudentsOfMovedTeacher(db, t, from', to, action).Ok?
    ensures var after := ResolveStudentsOfMovedTeacher(db, t, from', to, action).value;
            && after.links == db.links && after.users.Keys == db.users.Keys
            && forall u :: u in db.users ==> after.users[u].role == db.users[u].role && after.users[u].active == db.users[u].active
  {
  }

  lemma UpdateUserFamilies(db: Db, actor: Uid, id: Uid, edit: Edit)
    requires FamiliesOk(db) && IsStaff(db, actor) && UpdateUser(db, actor, id, edit).Ok?
    ensures FamiliesOk(UpdateUser(db, actor, id, edit).value)
  {
    hide PlanEdit, ResolveStudentsOfMovedTeacher, EditLinks, CenterOfStudent;
    var plan := PlanEdit(db, actor, id, edit).value;
    EditLinksOthers(db, actor, id, plan);
    var relinked := EditLinks(db, actor, id, plan).value;
    var existing := db.users[id];
    if plan.center != existing.center && existing.role == Teacher && plan.role == Teacher {
      MovedFamilies(relinked, id, existing.center, plan.center, edit.studentAction);
    }
    var after := UpdateUser(db, actor, id, edit).value;
    forall u | u in after.users ensures HasChild(after, u) {
      if u != id {
        assert HasChild(db, u);
        StillLinked(db, after, u);
      }
    }
  }

  lemma RemoveUserFamilies(db: Db, id: Uid)
    requires FamiliesOk(db)
    ensures FamiliesOk(Removed(db, id))
  {
  }

  lemma DeleteStudentFamilies(db: Db, actor: Uid, s: Sid)
    requires FamiliesOk(db) && IsStaff(db, actor) && DeleteStudent(db, actor, s).Ok?
    ensures FamiliesOk(DeleteStudent(db, actor, s).value)
  {
  }

  lemma {:induction false} ImportFamilies(db: Db, rows: seq<Row>, n: nat, teacher: Option<Uid>)
    requires FamiliesOk(db) && n <= |rows|
    ensures FamiliesOk(ImportRows(db, rows, n, teacher).0)
  {
    hide FamiliesOk, AddStudent;
    if n > 0 {
      ImportFamilies(db, rows, n - 1, teacher);
      AddStudentFamilies(ImportRows(db, rows, n - 1, teacher).0, Student(teacher, EmailsOfRow(rows[n - 1]), WhoOfRow(rows[n - 1])));
    }
  }

  function EmailsOfRow(row: Row): Emails {
    if row.Row? then row.emails else Emails(None, None, None)
  }

  function WhoOfRow(row: Row): string {
    if row.Row? then row.who else ""
  }

  lemma RequestKeepsFamilies(db: Db, actor: Uid, request: Request)
    requires FamiliesOk(db)
    ensures FamiliesOk(After(db, actor, request))
  {
    hide FamiliesOk, RegisterUser, UpdateUser, UpdateStudent, DeleteStudent, Removed, AddStudent, ImportRows;
    if Serve(db, actor, request).Ok? {
      match request
      case Register(r) => RegisterFamilies(db, actor, r);
      case ChangeUser(id, edit) => UpdateUserFamilies(db, actor, id, edit);
      case RemoveUser(id) => RemoveUserFamilies(db, id);
      case NewStudent(teacher, emails, who) => AddStudentFamilies(db, Student(ResolveTeacher(db, actor, teacher).value, emails, who));
      case ChangeStudent(s, edit) => UpdateStudentFamilies(db, actor, s, edit);
      case RemoveStudent(s) => DeleteStudentFamilies(db, actor, s);
      case BulkImport(rows) => ImportFamilies(db, rows, |rows|, TeacherOfRows(db, actor));
    }
  }

  lemma UpdateStudentFamilies(db: Db, actor: Uid, s: Sid, edit: StudentEdit)
    requires FamiliesOk(db) && IsStaff(db, actor) && UpdateStudent(db, actor, s, edit).Ok?
    ensures FamiliesOk(UpdateStudent(db, actor, s, edit).value)
  {
    hide LinkAccountsByEmail, ChangedEmails;
    var before := db.students[s];
    var next := if edit.teacher.Some? then ResolveTeacher(db, actor, edit.teacher).value else before.teacher;
    LinkingFamilies(db.(students := db.students[s := EditedStudent(before, edit, next)]), s, ChangedEmails(edit, before.emails));
  }

  /** In every run of any requests, every active Parent or Guardian account has at least one child. */
  lemma {:induction false} ActiveFamiliesHaveAChild(db: Db, requests: seq<(Uid, Request)>)
    requires FamiliesOk(db)
    ensures FamiliesOk(AfterAll(db, requests))
  {
    hide FamiliesOk, Serve;
    if requests != [] {
      var front := requests[..|requests| - 1];
      ActiveFamiliesHaveAChild(db, front);
      RequestKeepsFamilies(AfterAll(db, front), requests[|requests| - 1].0, requests[|requests| - 1].1);
    }
  }

  // ---- who gets deactivated -----------------------------------------------------------------

  lemma AddStudentActive(db: Db, student: Student, u: Uid)
    requires u in db.users && db.users[u].active
    ensures u in AddStudent(db, student).users && AddStudent(db, student).users[u].active
  {
  }

  lemma {:induction false} ImportActive(db: Db, rows: seq<Row>, n: nat, teacher: Option<Uid>, u: Uid)
    requires n <= |rows| && u in db.users && db.users[u].active
    ensures u in ImportRows(db, rows, n, teacher).0.users && ImportRows(db, rows, n, teacher).0.users[u].active
  {
    hide AddStudent;
    if n > 0 {
      ImportActive(db, rows, n - 1, teacher, u);
      AddStudentActive(ImportRows(db, rows, n - 1, teacher).0, Student(teacher, EmailsOfRow(rows[n - 1]), WhoOfRow(rows[n - 1])), u);
    }
  }

  lemma UpdateUserActive(db: Db, actor: Uid, id: Uid, edit: Edit, u: Uid)
    requires IsStaff(db, actor) && UpdateUser(db, actor, id, edit).Ok? && u in db.users && db.users[u].active
    ensures u in UpdateUser(db, actor, id, edit).value.users && UpdateUser(db, actor, id, edit).value.users[u].active
  {
    hide PlanEdit, ResolveStudentsOfMovedTeacher, CenterOfStudent;
    var plan := PlanEdit(db, actor, id, edit).value;
    var relinked := EditLinks(db, actor, id, plan).value;
    var existing := db.users[id];
    if plan.center != existing.center && existing.role == Teacher && plan.role == Teacher {
      MovedFamilies(relinked, id, existing.center, plan.center, edit.studentAction);
    }
  }

  lemma NothingElseDeactivates(db: Db, actor: Uid, request: Request, u: Uid)
    requires u in db.users && db.users[u].active && u in After(db, actor, request).users && !request.RemoveStudent?
    ensures After(db, actor, request).users[u].active
  {
    hide RegisterUser, UpdateUser, AddStudent, ImportRows, ChangedEmails;
    if Serve(db, actor, request).Ok? {
      match request
      case Register(r) => RegisterActive(db, actor, r, u);
      case ChangeUser(id, edit) => UpdateUserActive(db, actor, id, edit, u);
      case RemoveUser(id) =>
      case NewStudent(teacher, emails, who) => AddStudentActive(db, Student(ResolveTeacher(db, actor, teacher).value, emails, who), u);
      case ChangeStudent(s, edit) =>
      case RemoveStudent(s) =>
      case BulkImport(rows) => ImportActive(db, rows, |rows|, TeacherOfRows(db, actor), u);
    }
  }

  lemma RegisterActive(db: Db, actor: Uid, r: Registration, u: Uid)
    requires IsStaff(db, actor) && RegisterUser(db, actor, r).Ok? && u in db.users && db.users[u].active
    ensures u in RegisterUser(db, actor, r).value.users && RegisterUser(db, actor, r).value.users[u].active
  {
  }

  /** An account is deactivated exactly when a request deletes the only child it is linked to. */
  lemma DeactivationExactly(db: Db, actor: Uid, request: Request, u: Uid)
    requires u in db.users && db.users[u].active && u in After(db, actor, request).users
    ensures !After(db, actor, request).users[u].active
       <==> && request.RemoveStudent? && Serve(db, actor, request).Ok?
            && Linkable(db.users[u].role) && (u, request.sid) in db.links
            && forall l :: l in db.links && l.0 == u ==> l.1 == request.sid
  {
    if !request.RemoveStudent? {
      hide Serve;
      NothingElseDeactivates(db, actor, request, u);
    } else if Serve(db, actor, request).Ok? {
      hide CanAccess;
      var s, left := request.sid, WithoutStudent(db, request.sid);
      if l :| l in db.links && l.0 == u && l.1 != s {
        assert (u, l.1) in left.links;
      }
    }
  }

  // ---- every account has its place ------------------------------------------------------------

  // Only Admins have no center.
  ghost predicate Placed(user: User) {
    user.role == Admin <==> user.center == None
  }

  ghost predicate AllPlaced(db: Db) {
    forall u :: u in db.users ==> Placed(db.users[u])
  }

  lemma AddStudentPlaced(db: Db, student: Student)
    requires AllPlaced(db)
    ensures AllPlaced(AddStudent(db, student))
  {
  }

  lemma {:induction false} ImportPlaced(db: Db, rows: seq<Row>, n: nat, teacher: Option<Uid>)
    requires n <= |rows| && AllPlaced(db)
    ensures AllPlaced(ImportRows(db, rows, n, teacher).0)
  {
    hide AddStudent, AllPlaced;
    if n > 0 {
      ImportPlaced(db, rows, n - 1, teacher);
      AddStudentPlaced(ImportRows(db, rows, n - 1, teacher).0, Student(teacher, EmailsOfRow(rows[n - 1]), WhoOfRow(rows[n - 1])));
    }
  }

  lemma RegisterPlaced(db: Db, actor: Uid, r: Registration)
    requires AllPlaced(db) && IsStaff(db, actor) && RegisterUser(db, actor, r).Ok?
    ensures AllPlaced(RegisterUser(db, actor, r).value)
  {
  }

  lemma MovedPlaced(db: Db, t: Uid, from': Option<CenterId>, to: Option<CenterId>, action: StudentAction)
    requires AllPlaced(db) && to.Some? && ResolveStudentsOfMovedTeacher(db, t, from', to, action).Ok?
    ensures AllPlaced(ResolveStudentsOfMovedTeacher(db, t, from', to, action).value)
  {
  }

  lemma EditLinksPlaced(db: Db, actor: Uid, id: Uid, plan: Plan)
    requires actor in db.users && id in db.users && EditLinks(db, actor, id, plan).Ok?
    requires AllPlaced(db) && (plan.role == Admin <==> plan.center == None)
    ensures AllPlaced(EditLinks(db, actor, id, plan).value)
  {
  }

  lemma PlanPlaced(db: Db, actor: Uid, id: Uid, edit: Edit)
    requires IsStaff(db, actor) && PlanEdit(db, actor, id, edit).Ok?
    ensures var plan := PlanEdit(db, actor, id, edit).value; plan.role == Admin <==> plan.center == None
  {
  }

  lemma UpdateUserPlaced(db: Db, actor: Uid, id: Uid, edit: Edit)
    requires AllPlaced(db) && IsStaff(db, actor) && UpdateUser(db, actor, id, edit).Ok?
    ensures AllPlaced(UpdateUser(db, actor, id, edit).value)
  {
    hide PlanEdit, EditLinks, ResolveStudentsOfMovedTeacher, AllPlaced, CenterOfStudent;
    var plan := PlanEdit(db, actor, id, edit).value;
    PlanPlaced(db, actor, id, edit);
    EditLinksPlaced(db, actor, id, plan);
    var existing := db.users[id];
    var relinked := EditLinks(db, actor, id, plan).value;
    if plan.center != existing.center && existing.role == Teacher && plan.role == Teacher {
      MovedPlaced(relinked, id, existing.center, plan.center, edit.studentAction);
    }
    var resolved := EditStudents(db, relinked, id, plan, edit.studentAction).value;
    assert AllPlaced(resolved);
    SameUsersPlaced(resolved, UpdateUser(db, actor, id, edit).value);
  }

  /** Every account but an Admin's belongs to a center, and an Admin's to none, whatever is requested. */
  lemma RequestKeepsPlaces(db: Db, actor: Uid, request: Request)
    requires AllPlaced(db)
    ensures AllPlaced(After(db, actor, request))
  {
    hide AllPlaced, RegisterUser, UpdateUser, AddStudent, ImportRows;
    if Serve(db, actor, request).Ok? {
      match request
      case Register(r) => RegisterPlaced(db, actor, r);
      case ChangeUser(id, edit) => UpdateUserPlaced(db, actor, id, edit);
      case RemoveUser(id) => SameUsersPlaced(db, Removed(db, id));
      case NewStudent(teacher, emails, who) => AddStudentPlaced(db, Student(ResolveTeacher(db, actor, teacher).value, emails, who));
      case ChangeStudent(s, edit) => SameUsersPlaced(db, UpdateStudent(db, actor, s, edit).value);
      case RemoveStudent(s) => SameUsersPlaced(db, DeleteStudent(db, actor, s).value);
      case BulkImport(rows) => ImportPlaced(db, rows, |rows|, TeacherOfRows(db, actor));
    }
  }

  lemma SameUsersPlaced(db: Db, after: Db)
    requires AllPlaced(db) && after.users.Keys <= db.users.Keys
    requires forall u :: u in after.users ==> after.users[u].role == db.users[u].role && after.users[u].center == db.users[u].center
    ensures AllPlaced(after)
  {
  }

  // ---- importing students -----------------------------------------------------------------------

  ghost predicate KeepsStudents(db: Db, after: Db) {
    forall s :: s in db.students ==> s in after.students && after.students[s] == db.students[s]
  }

  lemma ImportRowFacts(db: Db, row: Row, teacher: Option<Uid>)
    requires IdsOk(db)
    ensures var after := ImportRow(db, row, teacher);
            && IdsOk(after)
            && |after.students| == |db.students| + (if RowFails(db, row, teacher) then 0 else 1)
            && KeepsStudents(db, after)
            && RowFails(after, row, teacher)
  {
    var after := ImportRow(db, row, teacher);
    if !RowFails(db, row, teacher) {
      assert after.students == db.students[db.nextStudent := Student(teacher, row.emails, row.who)];
      assert after.students[db.nextStudent].who == row.who;
    }
  }

  lemma FailsStay(db: Db, after: Db, row: Row, teacher: Option<Uid>)
    requires RowFails(db, row, teacher) && KeepsStudents(db, after)
    ensures RowFails(after, row, teacher)
  {
  }

  lemma KeepsItself(db: Db)
    ensures KeepsStudents(db, db)
  {
  }

  lemma KeepsOnward(db: Db, mid: Db, after: Db)
    requires KeepsStudents(db, mid) && KeepsStudents(mid, after)
    ensures KeepsStudents(db, after)
  {
  }

  /** An import creates a student for every row it does not report, and leaves the others' rows alone. */
  lemma {:induction false} ImportCreates(db: Db, rows: seq<Row>, n: nat, teacher: Option<Uid>)
    requires n <= |rows| && IdsOk(db)
    ensures var (after, failed) := ImportRows(db, rows, n, teacher);
            && IdsOk(after)
            && |after.students| + |failed| == |db.students| + n
            && KeepsStudents(db, after)
            && (forall k :: 0 <= k < n ==> RowFails(after, rows[k], teacher))
  {
    hide ImportRow, RowFails, KeepsStudents, IdsOk;
    if n == 0 {
      KeepsItself(db);
    } else {
      ImportCreates(db, rows, n - 1, teacher);
      var before := ImportRows(db, rows, n - 1, teacher).0;
      ImportRowFacts(before, rows[n - 1], teacher);
      KeepsOnward(db, before, ImportRow(before, rows[n - 1], teacher));
      forall k | 0 <= k < n - 1 ensures RowFails(ImportRow(before, rows[n - 1], teacher), rows[k], teacher) {
        FailsStay(before, ImportRow(before, rows[n - 1], teacher), rows[k], teacher);
      }
    }
  }

  // A well-formed row about a child the teacher does not have yet, neither before nor from an earlier row.
  ghost predicate IsNewChild(db: Db, rows: seq<Row>, i: nat, teacher: Option<Uid>)
    requires i < |rows|
  {
    && rows[i].Row?
    && (forall s :: s in db.students && db.students[s].teacher == teacher ==> db.students[s].who != rows[i].who)
    && (forall j :: 0 <= j < i && rows[j].Row? ==> rows[j].who != rows[i].who)
  }

  ghost predicate IsOfRow(student: Student, row: Row, teacher: Option<Uid>) {
    row.Row? && student == Student(teacher, row.emails, row.who)
  }

  ghost predicate CameFrom(student: Student, db: Db, rows: seq<Row>, n: nat, teacher: Option<Uid>)
    requires n <= |rows|
  {
    exists i: nat :: i < n && IsNewChild(db, rows, i, teacher) && IsOfRow(student, rows[i], teacher)
  }

  // The students added by the first `n` rows are those of the new children.
  ghost predicate AddsNewChildren(db: Db, after: Db, rows: seq<Row>, n: nat, teacher: Option<Uid>)
    requires n <= |rows|
  {
    && KeepsStudents(db, after)
    && (forall s :: s in after.students && s !in db.students ==> CameFrom(after.students[s], db, rows, n, teacher))
    && (forall i: nat :: i < n && IsNewChild(db, rows, i, teacher) ==>
          exists s :: s in after.students && s !in db.students && IsOfRow(after.students[s], rows[i], teacher))
  }

  lemma RowFailsExactly(db: Db, before: Db, rows: seq<Row>, n: nat, teacher: Option<Uid>)
    requires n < |rows| && AddsNewChildren(db, before, rows, n, teacher)
    ensures RowFails(before, rows[n], teacher) <==> !IsNewChild(db, rows, n, teacher)
  {
    if rows[n].Row? {
      var who := rows[n].who;
      if s :| s in before.students && before.students[s].who == who && before.students[s].teacher == teacher {
        if s !in db.students {
          assert CameFrom(before.students[s], db, rows, n, teacher);
        }
      }
      if j: nat :| j < n && rows[j].Row? && rows[j].who == who {
        FirstOfItsName(db, before, rows, n, j, teacher);
      }
    }
  }

  // A child named in an earlier row is in the tables, from that row or from before.
  lemma {:induction false} FirstOfItsName(db: Db, before: Db, rows: seq<Row>, n: nat, j: nat, teacher: Option<Uid>)
    requires j < n <= |rows| && rows[j].Row? && AddsNewChildren(db, before, rows, n, teacher)
    ensures exists s :: s in before.students && before.students[s].who == rows[j].who && before.students[s].teacher == teacher
  {
    if IsNewChild(db, rows, j, teacher) {
      var s :| s in before.students && s !in db.students && IsOfRow(before.students[s], rows[j], teacher);
    } else if s :| s in db.students && db.students[s].teacher == teacher && db.students[s].who == rows[j].who {
      assert before.students[s] == db.students[s];
    } else {
      var k :| 0 <= k < j && rows[k].Row? && rows[k].who == rows[j].who;
      FirstOfItsName(db, before, rows, n, k, teacher);
    }
  }

  // The lines reported after `n` rows are those of the other rows, in order.
  ghost predicate ReportsTheRest(failed: seq<nat>, db: Db, rows: seq<Row>, n: nat, teacher: Option<Uid>)
    requires n <= |rows|
  {
    && (forall x: nat :: x in failed <==> 2 <= x < n + 2 && !IsNewChild(db, rows, x - 2, teacher))
    && (forall j, k :: 0 <= j < k < |failed| ==> failed[j] < failed[k])
  }

  lemma OneMoreReport(failed: seq<nat>, db: Db, rows: seq<Row>, n: nat, teacher: Option<Uid>)
    requires 0 < n <= |rows| && ReportsTheRest(failed, db, rows, n - 1, teacher)
    ensures ReportsTheRest(if IsNewChild(db, rows, n - 1, teacher) then failed else failed + [n + 1], db, rows, n, teacher)
  {
    hide IsNewChild;
    assert forall k :: 0 <= k < |failed| ==> failed[k] in failed;
  }

  /** An import stores exactly the new children, with the emails, name and birthday of their first row, and
      reports exactly the other rows, by their line in the file. */
  lemma {:induction false} ImportExactly(db: Db, rows: seq<Row>, n: nat, teacher: Option<Uid>)
    requires n <= |rows| && IdsOk(db)
    ensures var (after, failed) := ImportRows(db, rows, n, teacher);
            AddsNewChildren(db, after, rows, n, teacher) && ReportsTheRest(failed, db, rows, n, teacher)
  {
    hide IsNewChild, AddsNewChildren, ReportsTheRest, RowFails, IdsOk, ImportRow;
    if n == 0 {
      NothingAdded(db, rows, teacher);
    } else {
      ImportExactly(db, rows, n - 1, teacher);
      ImportCreates(db, rows, n - 1, teacher);
      var (before, failed) := ImportRows(db, rows, n - 1, teacher);
      RowFailsExactly(db, before, rows, n - 1, teacher);
      OneMoreRow(db, before, rows, n, teacher);
      OneMoreReport(failed, db, rows, n, teacher);
    }
  }

  lemma NothingAdded(db: Db, rows: seq<Row>, teacher: Option<Uid>)
    ensures AddsNewChildren(db, db, rows, 0, teacher) && ReportsTheRest([], db, rows, 0, teacher)
  {
  }

  lemma OneMoreRow(db: Db, before: Db, rows: seq<Row>, n: nat, teacher: Option<Uid>)
    requires 0 < n <= |rows| && IdsOk(before) && AddsNewChildren(db, before, rows, n - 1, teacher)
    requires RowFails(before, rows[n - 1], teacher) <==> !IsNewChild(db, rows, n - 1, teacher)
    ensures AddsNewChildren(db, ImportRow(before, rows[n - 1], teacher), rows, n, teacher)
  {
    hide IsNewChild, RowFails, ImportRow, IdsOk;
    var after := ImportRow(before, rows[n - 1], teacher);
    if !RowFails(before, rows[n - 1], teacher) {
      NewRowIsStored(before, rows[n - 1], teacher);
    } else {
      FailedRowIsNot(before, rows[n - 1], teacher);
    }
    forall s | s in after.students && s !in db.students ensures CameFrom(after.students[s], db, rows, n, teacher) {
      if s in before.students {
        assert CameFrom(before.students[s], db, rows, n - 1, teacher);
      }
    }
    forall i: nat | i < n && IsNewChild(db, rows, i, teacher)
      ensures exists s :: s in after.students && s !in db.students && IsOfRow(after.students[s], rows[i], teacher)
    {
      if i < n - 1 {
        var s :| s in before.students && s !in db.students && IsOfRow(before.students[s], rows[i], teacher);
        assert s in after.students && after.students[s] == before.students[s];
      } else {
        assert IsOfRow(after.students[before.nextStudent], rows[i], teacher);
      }
    }
  }

  lemma FailedRowIsNot(db: Db, row: Row, teacher: Option<Uid>)
    requires RowFails(db, row, teacher)
    ensures ImportRow(db, row, teacher) == db
  {
  }

  lemma NewRowIsStored(db: Db, row: Row, teacher: Option<Uid>)
    requires IdsOk(db) && !RowFails(db, row, teacher)
    ensures row.Row? && db.nextStudent !in db.students
    ensures ImportRow(db, row, teacher).students == db.students[db.nextStudent := Student(teacher, row.emails, row.who)]
  {
  }

  lemma {:induction false} FailingRowsAddNothing(db: Db, rows: seq<Row>, n: nat, teacher: Option<Uid>)
    requires n <= |rows| && forall k :: 0 <= k < n ==> RowFails(db, rows[k], teacher)
    ensures ImportRows(db, rows, n, teacher).0 == db && |ImportRows(db, rows, n, teacher).1| == n
  {
    if n > 0 {
      FailingRowsAddNothing(db, rows, n - 1, teacher);
    }
  }

  lemma {:induction false} ImportKeepsStaff(db: Db, rows: seq<Row>, n: nat, teacher: Option<Uid>, u: Uid)
    requires n <= |rows| && IsStaff(db, u)
    ensures IsStaff(ImportRows(db, rows, n, teacher).0, u)
    ensures ImportRows(db, rows, n, teacher).0.users[u] == db.users[u]
  {
    if n > 0 {
      ImportKeepsStaff(db, rows, n - 1, teacher, u);
    }
  }

  /** Sending the same file again creates no student and reports every row. */
  lemma ReimportCreatesNothing(db: Db, actor: Uid, rows: seq<Row>)
    requires IdsOk(db) && IsStaff(db, actor) && ImportStudents(db, actor, rows).Ok?
    ensures var once := ImportStudents(db, actor, rows).value.0;
            && IsStaff(once, actor)
            && ImportStudents(once, actor, rows).Ok?
            && ImportStudents(once, actor, rows).value.0 == once
            && |ImportStudents(once, actor, rows).value.1| == |rows|
  {
    hide ImportRows, RowFails;
    var teacher := TeacherOfRows(db, actor);
    var once := ImportRows(db, rows, |rows|, teacher).0;
    ImportCreates(db, rows, |rows|, teacher);
    ImportKeepsStaff(db, rows, |rows|, teacher, actor);
    FailingRowsAddNothing(once, rows, |rows|, teacher);
  }
}
