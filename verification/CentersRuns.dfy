/** What every request keeps true of accounts, students and links, over whole runs. */
module CentersRuns {
  import opened Options
  import opened Centers

  // A family's account is at the center its child is taught at.
  ghost predicate LinkOk(db: Db, l: (Uid, Sid)) {
    && l.0 in db.users && l.1 in db.students
    && Linkable(db.users[l.0].role)
    && (CenterOfStudent(db, l.1).Some? ==> db.users[l.0].center == CenterOfStudent(db, l.1))
  }

  ghost predicate TeacherOk(db: Db, s: Sid)
    requires s in db.students
  {
    var t := db.students[s].teacher;
    t.Some? ==> t.value in db.users && db.users[t.value].role == Teacher
  }

  ghost predicate TeachersOk(db: Db) {
    forall s :: s in db.students ==> TeacherOk(db, s)
  }

  ghost predicate IdsOk(db: Db) {
    && (forall u :: u in db.users ==> u < db.nextUser)
    && (forall s :: s in db.students ==> s < db.nextStudent)
  }

  ghost predicate Consistent(db: Db) {
    && IdsOk(db)
    && TeachersOk(db)
    && forall l :: l in db.links ==> LinkOk(db, l)
  }

  // ---- linking -------------------------------------------------------------------

  lemma CreateLinksKeeps(db: Db, u: Uid, ids: set<Sid>)
    requires Consistent(db) && u in db.users && Linkable(db.users[u].role)
    requires forall s :: s in ids ==> s in db.students && CenterOfStudent(db, s) == db.users[u].center
    ensures Consistent(CreateLinks(db, u, ids))
  {
  }

  lemma LinkAccountsKeeps(db: Db, s: Sid, emails: set<Email>)
    requires Consistent(db) && s in db.students
    ensures Consistent(LinkAccountsByEmail(db, s, emails))
  {
  }

  // ---- accounts --------------------------------------------------------------------

  lemma AddUserKeeps(db: Db, user: User)
    requires Consistent(db)
    ensures Consistent(db.(users := db.users[db.nextUser := user], nextUser := db.nextUser + 1))
    ensures forall s :: s in db.students ==>
              CenterOfStudent(db.(users := db.users[db.nextUser := user], nextUser := db.nextUser + 1), s) == CenterOfStudent(db, s)
  {
  }

  lemma RegisterKeeps(db: Db, actor: Uid, r: Registration)
    requires Consistent(db) && IsStaff(db, actor) && RegisterUser(db, actor, r).Ok?
    ensures Consistent(RegisterUser(db, actor, r).value)
  {
    var ids := ParseStudentIds(r.studentIds).value;
    var center := CenterOfNewAccount(db, actor, r, ids).value;
    var user := User(r.role, center, true, r.email);
    AddUserKeeps(db, user);
    var added := db.(users := db.users[db.nextUser := user], nextUser := db.nextUser + 1);
    if Linkable(r.role) {
      CreateLinksKeeps(added, db.nextUser, ids);
      var created := CreateLinks(added, db.nextUser, ids);
      if center.Some? {
        CreateLinksKeeps(created, db.nextUser,
          set s | s in created.students && r.email in EmailsOf(created.students[s].emails) && CenterOfStudent(created, s) == center);
      }
    } else {
      assert CreateLinks(added, db.nextUser, ids) == added;
    }
  }

  lemma RemoveUserKeeps(db: Db, id: Uid)
    requires Consistent(db)
    ensures Consistent(Removed(db, id))
  {
  }

  // ---- students ----------------------------------------------------------------------

  lemma AddStudentKeeps(db: Db, student: Student)
    requires Consistent(db)
    requires student.teacher.Some? ==> student.teacher.value in db.users && db.users[student.teacher.value].role == Teacher
    ensures Consistent(AddStudent(db, student))
  {
    var s := db.nextStudent;
    var added := db.(students := db.students[s := student], nextStudent := s + 1);
    forall x | x in added.students ensures TeacherOk(added, x) { if x != s { assert TeacherOk(db, x); } }
    forall l | l in added.links ensures LinkOk(added, l) { assert LinkOk(db, l); }
    LinkAccountsKeeps(added, s, EmailsOf(student.emails));
  }

  lemma UpdateStudentKeeps(db: Db, actor: Uid, s: Sid, edit: StudentEdit)
    requires Consistent(db) && IsStaff(db, actor) && UpdateStudent(db, actor, s, edit).Ok?
    ensures Consistent(UpdateStudent(db, actor, s, edit).value)
  {
    hide ChangedEmails;
    var before := db.students[s];
    var next := if edit.teacher.Some? then ResolveTeacher(db, actor, edit.teacher).value else before.teacher;
    var updated := db.(students := db.students[s := EditedStudent(before, edit, next)]);
    assert TeacherOk(db, s);
    forall x | x in updated.students ensures TeacherOk(updated, x) { if x != s { assert TeacherOk(db, x); } }
    forall l | l in updated.links ensures LinkOk(updated, l) { assert LinkOk(db, l); }
    LinkAccountsKeeps(updated, s, ChangedEmails(edit, before.emails));
  }

  lemma DeleteStudentKeeps(db: Db, actor: Uid, s: Sid)
    requires Consistent(db) && IsStaff(db, actor) && DeleteStudent(db, actor, s).Ok?
    ensures Consistent(DeleteStudent(db, actor, s).value)
  {
    var after := DeleteStudent(db, actor, s).value;
    forall x | x in after.students ensures TeacherOk(after, x) { assert TeacherOk(db, x); }
    forall l | l in after.links ensures LinkOk(after, l) { assert LinkOk(db, l); }
  }

  lemma {:induction false} ImportKeeps(db: Db, rows: seq<Row>, n: nat, teacher: Option<Uid>)
    requires Consistent(db) && n <= |rows|
    requires teacher.Some? ==> teacher.value in db.users && db.users[teacher.value].role == Teacher
    ensures var after := ImportRows(db, rows, n, teacher).0;
            && Consistent(after)
            && (teacher.Some? ==> teacher.value in after.users && after.users[teacher.value].role == Teacher)
  {
    hide Consistent;
    if n > 0 {
      ImportKeeps(db, rows, n - 1, teacher);
      var before := ImportRows(db, rows, n - 1, teacher).0;
      if !RowFails(before, rows[n - 1], teacher) {
        AddStudentKeeps(before, Student(teacher, rows[n - 1].emails, rows[n - 1].who));
      }
    }
  }

  // ---- changing an account ----------------------------------------------------------------

  // A Teacher turned into something else while students are still theirs.
  ghost predicate LeavesStudentsBehind(db: Db, id: Uid, role: Role) {
    id in db.users && db.users[id].role == Teacher && role != Teacher && Teaches(db, id)
  }

  lemma MovedTeacherKeeps(db: Db, moved: Db, t: Uid, to: Option<CenterId>, action: StudentAction)
    requires Consistent(db) && t in db.users && db.users[t].role == Teacher
    requires t in moved.users && moved.users[t].role == Teacher && moved.users[t].center == to
    requires moved == db.(users := db.users[t := moved.users[t]], links := moved.links) && moved.links <= db.links
    requires ResolveStudentsOfMovedTeacher(moved, t, db.users[t].center, to, action).Ok?
    ensures Consistent(ResolveStudentsOfMovedTeacher(moved, t, db.users[t].center, to, action).value)
  {
    var after := ResolveStudentsOfMovedTeacher(moved, t, db.users[t].center, to, action).value;
    forall s | s in after.students ensures TeacherOk(after, s) { assert TeacherOk(db, s); }
    forall l | l in after.links ensures LinkOk(after, l) {
      assert LinkOk(db, l) && TeacherOk(db, l.1);
      if Teaches(moved, t) && action.Move? {
        if l.0 in FamiliesOf(moved, t) {
          assert TaughtBy(moved, l.1, t);
        } else {
          assert !TaughtBy(moved, l.1, t);
        }
      }
    }
  }

  // When the account teaches nobody and nobody's links but its own are touched.
  lemma OwnLinksKeep(db: Db, after: Db, id: Uid)
    requires Consistent(db) && id in db.users && id in after.users && !Teaches(db, id)
    requires after == db.(users := db.users[id := after.users[id]], links := after.links)
    requires forall l :: l in after.links && l.0 != id ==> l in db.links
    requires forall l :: l in after.links && l.0 == id ==>
               l.1 in db.students && Linkable(after.users[id].role)
               && (CenterOfStudent(db, l.1).Some? ==> after.users[id].center == CenterOfStudent(db, l.1))
    ensures Consistent(after)
  {
  }

  // What the checks before the transaction establish.
  lemma PlanFacts(db: Db, actor: Uid, id: Uid, edit: Edit)
    requires IsStaff(db, actor) && PlanEdit(db, actor, id, edit).Ok?
    ensures var p, existing, me := PlanEdit(db, actor, id, edit).value, db.users[id], db.users[actor];
            && p.role == RoleAfter(db, id, edit)
            && (p.role != Admin ==> p.center.Some?)
            && (me.role != Admin ==> p.role == existing.role && p.center == existing.center)
            && (me.role != Admin && Linkable(existing.role) ==> existing.center == me.center)
            && (p.ids.Some? && p.ids.value != {} ==> Linkable(p.role))
            && (p.ids.Some? ==> forall s :: s in p.ids.value ==> s in db.students && CenterOfStudent(db, s) == p.center)
            && (Linkable(p.role) && p.ids == None ==> Linkable(existing.role) && p.center == existing.center)
  {
  }

  lemma EditKeepsWithoutStudents(db: Db, actor: Uid, id: Uid, edit: Edit)
    requires Consistent(db) && IsStaff(db, actor) && UpdateUser(db, actor, id, edit).Ok?
    requires id in db.users && !Teaches(db, id)
    ensures Consistent(UpdateUser(db, actor, id, edit).value)
  {
    hide PlanEdit;
    PlanFacts(db, actor, id, edit);
    var plan := PlanEdit(db, actor, id, edit).value;
    var relinked := EditLinks(db, actor, id, plan).value;
    RelinkedLinks(db, actor, id, plan);
    var after := UpdateUser(db, actor, id, edit).value;
    assert EditStudents(db, relinked, id, plan, edit.studentAction).value == relinked;
    forall s | s in db.students ensures CenterOfStudent(relinked, s) == CenterOfStudent(db, s) {
      assert TeacherOk(db, s);
    }
    OwnLinksKeep(db, after, id);
  }

  // The edited account's links once its list has been replaced.
  lemma RelinkedLinks(db: Db, actor: Uid, id: Uid, plan: Plan)
    requires Consistent(db) && IsStaff(db, actor) && id in db.users && EditLinks(db, actor, id, plan).Ok?
    requires db.users[actor].role != Admin ==>
               plan.role == db.users[id].role && plan.center == db.users[id].center
               && (Linkable(plan.role) ==> db.users[actor].center == plan.center)
    requires plan.ids.Some? ==> forall s :: s in plan.ids.value ==> s in db.students && CenterOfStudent(db, s) == plan.center
    requires plan.ids.Some? && plan.ids.value != {} ==> Linkable(plan.role)
    requires Linkable(plan.role) && plan.ids == None ==> Linkable(db.users[id].role) && plan.center == db.users[id].center
    ensures var after := EditLinks(db, actor, id, plan).value;
            && id in after.users && after.users[id].role == plan.role && after.users[id].center == plan.center
            && after == db.(users := db.users[id := after.users[id]], links := after.links)
            && (forall l :: l in after.links && l.0 != id ==> l in db.links)
            && (forall l :: l in after.links && l.0 == id ==>
                  l.1 in db.students && Linkable(plan.role)
                  && (CenterOfStudent(db, l.1).Some? ==> plan.center == CenterOfStudent(db, l.1)))
  {
  }

  lemma EditKeepsTeachers(db: Db, actor: Uid, id: Uid, edit: Edit)
    requires Consistent(db) && IsStaff(db, actor) && UpdateUser(db, actor, id, edit).Ok?
    requires id in db.users && db.users[id].role == Teacher && RoleAfter(db, id, edit) == Teacher
    ensures Consistent(UpdateUser(db, actor, id, edit).value)
  {
    hide PlanEdit, ResolveStudentsOfMovedTeacher;
    PlanFacts(db, actor, id, edit);
    var plan := PlanEdit(db, actor, id, edit).value;
    RelinkedLinks(db, actor, id, plan);
    var moved := EditLinks(db, actor, id, plan).value;
    forall l | l in moved.links ensures l in db.links {
      if l.0 == id { assert false; }
    }
    if plan.center != db.users[id].center {
      MovedTeacherKeeps(db, moved, id, plan.center, edit.studentAction);
    } else {
      StayingTeacherKeeps(db, moved, id);
    }
  }

  lemma StayingTeacherKeeps(db: Db, after: Db, t: Uid)
    requires Consistent(db) && t in db.users && t in after.users && after.links <= db.links
    requires db.users[t].role == Teacher == after.users[t].role && after.users[t].center == db.users[t].center
    requires after == db.(users := db.users[t := after.users[t]], links := after.links)
    ensures Consistent(after)
  {
  }

  lemma EditKeepsStudents(db: Db, actor: Uid, id: Uid, edit: Edit)
    requires IsStaff(db, actor) && UpdateUser(db, actor, id, edit).Ok? && id in db.users && RoleAfter(db, id, edit) != Teacher
    ensures var after := UpdateUser(db, actor, id, edit).value;
            after.students == db.students && id in after.users && after.users[id].role == RoleAfter(db, id, edit)
  {
    hide EditRefusal, CenterAfter;
  }

  /** Changing an account keeps everything consistent exactly unless it turns a Teacher who still has
      students into something else: the handover runs only for a Teacher who stays one. */
  lemma UpdateUserExactly(db: Db, actor: Uid, id: Uid, edit: Edit)
    requires Consistent(db) && IsStaff(db, actor) && UpdateUser(db, actor, id, edit).Ok?
    ensures id in db.users
    ensures Consistent(UpdateUser(db, actor, id, edit).value) <==> !LeavesStudentsBehind(db, id, RoleAfter(db, id, edit))
  {
    hide UpdateUser, CenterAfter;
    assert id in db.users by { UpdatedExists(db, actor, id, edit); }
    if LeavesStudentsBehind(db, id, RoleAfter(db, id, edit)) {
      EditKeepsStudents(db, actor, id, edit);
      var s :| s in db.students && db.students[s].teacher == Some(id);
      assert !TeacherOk(UpdateUser(db, actor, id, edit).value, s);
    } else if Teaches(db, id) {
      var s :| s in db.students && db.students[s].teacher == Some(id);
      assert TeacherOk(db, s);
      EditKeepsTeachers(db, actor, id, edit);
    } else {
      EditKeepsWithoutStudents(db, actor, id, edit);
    }
  }

  lemma UpdatedExists(db: Db, actor: Uid, id: Uid, edit: Edit)
    requires IsStaff(db, actor) && UpdateUser(db, actor, id, edit).Ok?
    ensures id in db.users
  {
  }

  // ---- runs ---------------------------------------------------------------------------------

  ghost predicate Abandons(db: Db, request: Request) {
    request.ChangeUser? && LeavesStudentsBehind(db, request.id, RoleAfterRequest(db, request))
  }

  function RoleAfterRequest(db: Db, request: Request): Role
    requires request.ChangeUser?
  {
    if request.id in db.users then RoleAfter(db, request.id, request.edit) else Admin
  }

  /** Every request, of anyone, either way it ends: consistency is kept exactly unless the request goes
      through and turns a Teacher with students into something else. */
  lemma RequestsKeepConsistency(db: Db, actor: Uid, request: Request)
    requires Consistent(db)
    ensures Consistent(After(db, actor, request)) <==> !(Serve(db, actor, request).Ok? && Abandons(db, request))
  {
    hide RegisterUser, UpdateUser, UpdateStudent, DeleteStudent, Removed, AddStudent, ImportRows, Consistent, LeavesStudentsBehind;
    if Serve(db, actor, request).Ok? {
      match request
      case Register(r) => RegisterKeeps(db, actor, r);
      case ChangeUser(id, edit) => UpdateUserExactly(db, actor, id, edit);
      case RemoveUser(id) => RemoveUserKeeps(db, id);
      case NewStudent(teacher, emails, who) => AddStudentKeeps(db, Student(ResolveTeacher(db, actor, teacher).value, emails, who));
      case ChangeStudent(s, edit) => UpdateStudentKeeps(db, actor, s, edit);
      case RemoveStudent(s) => DeleteStudentKeeps(db, actor, s);
      case BulkImport(rows) => ImportKeeps(db, rows, |rows|, TeacherOfRows(db, actor));
    }
  }

  /** Over whole runs: links belong to families, students to Teachers, and a linked account is at its
      child's center, as long as nobody turns a Teacher with students into something else. */
  lemma {:induction false} RunsKeepConsistency(db: Db, requests: seq<(Uid, Request)>)
    requires Consistent(db)
    requires forall k :: 0 <= k < |requests| ==> !Abandons(AfterAll(db, requests[..k]), requests[k].1)
    ensures Consistent(AfterAll(db, requests))
  {
    hide Consistent, Serve, Abandons;
    if requests != [] {
      var front := requests[..|requests| - 1];
      forall k | 0 <= k < |front| ensures !Abandons(AfterAll(db, front[..k]), front[k].1) {
        assert front[..k] == requests[..k];
        assert !Abandons(AfterAll(db, requests[..k]), requests[k].1);
      }
      RunsKeepConsistency(db, front);
      RequestsKeepConsistency(AfterAll(db, front), requests[|requests| - 1].0, requests[|requests| - 1].1);
    }
  }

  // ---- one account per email ---------------------------------------------------------------------

  // No two accounts have the same email, and the next number is nobody's.
  ghost predicate EmailsUnique(db: Db) {
    && (forall u, v :: u in db.users && v in db.users && u != v ==> db.users[u].email != db.users[v].email)
    && (forall u :: u in db.users ==> u < db.nextUser)
  }

  lemma SameEmailsUnique(db: Db, after: Db)
    requires EmailsUnique(db) && after.users.Keys <= db.users.Keys && db.nextUser <= after.nextUser
    requires forall u :: u in after.users ==> after.users[u].email == db.users[u].email
    ensures EmailsUnique(after)
  {
  }

  lemma RegisterUnique(db: Db, actor: Uid, r: Registration)
    requires EmailsUnique(db) && IsStaff(db, actor) && RegisterUser(db, actor, r).Ok?
    ensures EmailsUnique(RegisterUser(db, actor, r).value)
  {
    hide CenterOfNewAccount, HasLink;
  }

  lemma EditLinksEmails(db: Db, actor: Uid, id: Uid, plan: Plan)
    requires actor in db.users && id in db.users && EditLinks(db, actor, id, plan).Ok?
    ensures var after := EditLinks(db, actor, id, plan).value;
            && after.users.Keys == db.users.Keys && after.nextUser == db.nextUser && after.users[id].email == plan.email
            && (forall u :: u in db.users && u != id ==> after.users[u].email == db.users[u].email)
  {
  }

  lemma MovedEmails(db: Db, t: Uid, from': Option<CenterId>, to: Option<CenterId>, action: StudentAction)
    requires ResolveStudentsOfMovedTeacher(db, t, from', to, action).Ok?
    ensures var after := ResolveStudentsOfMovedTeacher(db, t, from', to, action).value;
            && after.users.Keys == db.users.Keys && after.nextUser == db.nextUser
            && forall u :: u in db.users ==> after.users[u].email == db.users[u].email
  {
  }

  lemma UpdateUserUnique(db: Db, actor: Uid, id: Uid, edit: Edit)
    requires EmailsUnique(db) && IsStaff(db, actor) && UpdateUser(db, actor, id, edit).Ok?
    ensures EmailsUnique(UpdateUser(db, actor, id, edit).value)
  {
    hide PlanEdit, EditLinks, ResolveStudentsOfMovedTeacher, CenterOfStudent, LinksInCenter, HasLink, EmailsUnique;
    var plan := PlanEdit(db, actor, id, edit).value;
    var relinked := EditLinks(db, actor, id, plan).value;
    EditLinksEmails(db, actor, id, plan);
    FreeEmailUnique(db, relinked, id, plan.email);
    var existing := db.users[id];
    if plan.center != existing.center && existing.role == Teacher && plan.role == Teacher {
      MovedEmails(relinked, id, existing.center, plan.center, edit.studentAction);
    }
    SameEmailsUnique(relinked, UpdateUser(db, actor, id, edit).value);
  }

  lemma FreeEmailUnique(db: Db, after: Db, id: Uid, email: Email)
    requires EmailsUnique(db) && !EmailTaken(db, email, Some(id)) && after.users.Keys == db.users.Keys && after.nextUser == db.nextUser
    requires id in db.users && after.users[id].email == email
    requires forall u :: u in db.users && u != id ==> after.users[u].email == db.users[u].email
    ensures EmailsUnique(after)
  {
  }

  lemma {:induction false} ImportEmails(db: Db, rows: seq<Row>, n: nat, teacher: Option<Uid>)
    requires EmailsUnique(db) && n <= |rows|
    ensures EmailsUnique(ImportRows(db, rows, n, teacher).0)
  {
    hide EmailsUnique, RowFails;
    if n > 0 {
      ImportEmails(db, rows, n - 1, teacher);
      SameEmailsUnique(ImportRows(db, rows, n - 1, teacher).0, ImportRows(db, rows, n, teacher).0);
    }
  }

  lemma RequestKeepsEmailsUnique(db: Db, actor: Uid, request: Request)
    requires EmailsUnique(db)
    ensures EmailsUnique(After(db, actor, request))
  {
    hide EmailsUnique, RegisterUser, UpdateUser, ImportRows, CenterOfStudent, CanAccess;
    if Serve(db, actor, request).Ok? {
      match request
      case Register(r) => RegisterUnique(db, actor, r);
      case ChangeUser(id, edit) => UpdateUserUnique(db, actor, id, edit);
      case RemoveUser(id) => SameEmailsUnique(db, After(db, actor, request));
      case NewStudent(teacher, emails, who) => SameEmailsUnique(db, After(db, actor, request));
      case ChangeStudent(s, edit) => SameEmailsUnique(db, After(db, actor, request));
      case RemoveStudent(s) => SameEmailsUnique(db, After(db, actor, request));
      case BulkImport(rows) => ImportEmails(db, rows, |rows|, TeacherOfRows(db, actor));
    }
  }

  /** In every run, no two accounts ever have the same email. */
  lemma {:induction false} EmailsStayUnique(db: Db, requests: seq<(Uid, Request)>)
    requires EmailsUnique(db)
    ensures EmailsUnique(AfterAll(db, requests))
  {
    hide EmailsUnique, Serve;
    if requests != [] {
      var front := requests[..|requests| - 1];
      EmailsStayUnique(db, front);
      RequestKeepsEmailsUnique(AfterAll(db, front), requests[|requests| - 1].0, requests[|requests| - 1].1);
    }
  }

  const BOSS := User(Admin, None, true, "boss")
  const LEAVER := User(Teacher, Some(1), true, "t")
  const STRANDED := Student(Some(2), Emails(None, None, None), "Ana")
  const BEFORE := Db(map[1 := BOSS, 2 := LEAVER], map[1 := STRANDED], {}, {1}, 3, 2)

  /** The exception is real: an Admin makes a Teacher an Admin, and the student's teacher is no Teacher. */
  lemma TeacherLeavesStudents()
    ensures Consistent(BEFORE)
    ensures Serve(BEFORE, 1, ChangeUser(2, Edit(Some(Admin), None, None, None, Undecided))).Ok?
    ensures !Consistent(After(BEFORE, 1, ChangeUser(2, Edit(Some(Admin), None, None, None, Undecided))))
  {
    var edit := Edit(Some(Admin), None, None, None, Undecided);
    assert TeacherOk(BEFORE, 1);
    assert PlanEdit(BEFORE, 1, 2, edit) == Ok(Plan(Admin, "t", None, None));
    assert UpdateUser(BEFORE, 1, 2, edit).Ok?;
    assert BEFORE.students[1].teacher == Some(2);
    assert LeavesStudentsBehind(BEFORE, 2, Admin);
    UpdateUserExactly(BEFORE, 1, 2, edit);
  }
}
