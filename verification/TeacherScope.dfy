/** What a Teacher's requests can reach, and what moving a Teacher does to everybody else. */
module TeacherScope {
  import opened Options
  import opened Centers
  import opened CentersRuns
  import opened Families

  // Other centers' accounts, students and links are as they were.
  ghost predicate ElsewhereUntouched(db: Db, after: Db, actor: Uid, center: CenterId) {
    && (forall u :: u in db.users && u != actor && db.users[u].center != Some(center) ==>
          u in after.users && after.users[u] == db.users[u])
    && (forall s :: s in db.students && CenterOfStudent(db, s) != Some(center) ==>
          s in after.students && after.students[s] == db.students[s])
    && (forall l: (Uid, Sid) :: l.1 in db.students && CenterOfStudent(db, l.1) != Some(center) ==>
          (l in after.links <==> l in db.links))
  }

  ghost predicate IsTeacherAt(db: Db, actor: Uid, center: CenterId) {
    actor in db.users && db.users[actor].role == Teacher && db.users[actor].center == Some(center)
  }

  lemma RegisterInCenter(db: Db, actor: Uid, r: Registration, center: CenterId)
    requires Consistent(db) && IsTeacherAt(db, actor, center) && RegisterUser(db, actor, r).Ok?
    ensures ElsewhereUntouched(db, RegisterUser(db, actor, r).value, actor, center)
  {
    hide Consistent, ParseStudentIds, CenterFromStudents;
    assert db.nextUser !in db.users by { assert IdsOk(db) by { ConsistentIds(db); } }
    var ids := ParseStudentIds(r.studentIds).value;
    var user := User(r.role, Some(center), true, r.email);
    var added := db.(users := db.users[db.nextUser := user], nextUser := db.nextUser + 1);
    AddUserKeeps(db, user);
  }

  lemma ConsistentIds(db: Db)
    requires Consistent(db)
    ensures IdsOk(db)
  {
  }

  lemma EditInCenter(db: Db, actor: Uid, id: Uid, edit: Edit, center: CenterId)
    requires Consistent(db) && IsTeacherAt(db, actor, center) && UpdateUser(db, actor, id, edit).Ok?
    ensures ElsewhereUntouched(db, UpdateUser(db, actor, id, edit).value, actor, center)
  {
    hide PlanEdit, Consistent, ResolveStudentsOfMovedTeacher;
    PlanFacts(db, actor, id, edit);
    TeacherPlan(db, actor, id, edit, center);
    var plan := PlanEdit(db, actor, id, edit).value;
    var relinked := EditLinks(db, actor, id, plan).value;
    assert relinked.students == db.students;
    forall s | s in db.students ensures CenterOfStudent(relinked, s) == CenterOfStudent(db, s) {
    }
  }

  lemma TeacherPlan(db: Db, actor: Uid, id: Uid, edit: Edit, center: CenterId)
    requires IsTeacherAt(db, actor, center) && PlanEdit(db, actor, id, edit).Ok?
    ensures var p := PlanEdit(db, actor, id, edit).value;
            && db.users[id].center == Some(center) && p.email == db.users[id].email
            && (p.ids.Some? ==> forall s :: s in p.ids.value ==> CenterOfStudent(db, s) == Some(center))
  {
  }

  lemma DeleteStudentInCenter(db: Db, actor: Uid, s: Sid, center: CenterId)
    requires Consistent(db) && IsTeacherAt(db, actor, center) && DeleteStudent(db, actor, s).Ok?
    ensures ElsewhereUntouched(db, DeleteStudent(db, actor, s).value, actor, center)
  {
  }

  lemma UpdateStudentInCenter(db: Db, actor: Uid, s: Sid, edit: StudentEdit, center: CenterId)
    requires IsTeacherAt(db, actor, center) && UpdateStudent(db, actor, s, edit).Ok?
    ensures ElsewhereUntouched(db, UpdateStudent(db, actor, s, edit).value, actor, center)
  {
  }

  lemma AddStudentInCenter(db: Db, actor: Uid, student: Student, center: CenterId)
    requires IdsOk(db) && IsTeacherAt(db, actor, center) && student.teacher == Some(actor)
    ensures var after := AddStudent(db, student);
            ElsewhereUntouched(db, after, actor, center) && IsTeacherAt(after, actor, center)
            && forall s :: s in db.students ==> CenterOfStudent(after, s) == CenterOfStudent(db, s)
  {
  }

  lemma {:induction false} ImportInCenter(db: Db, actor: Uid, rows: seq<Row>, n: nat, center: CenterId)
    requires Consistent(db) && IsTeacherAt(db, actor, center) && n <= |rows|
    ensures var after := ImportRows(db, rows, n, Some(actor)).0;
            && ElsewhereUntouched(db, after, actor, center) && IsTeacherAt(after, actor, center)
            && forall s :: s in db.students ==> s in after.students && CenterOfStudent(after, s) == CenterOfStudent(db, s)
  {
    hide Consistent, AddStudent;
    if n > 0 {
      ImportInCenter(db, actor, rows, n - 1, center);
      var before := ImportRows(db, rows, n - 1, Some(actor)).0;
      ImportKeeps(db, rows, n - 1, Some(actor));
      ConsistentIds(before);
      AddStudentInCenter(before, actor, Student(Some(actor), EmailsOfRow(rows[n - 1]), WhoOfRow(rows[n - 1])), center);
    }
  }

  lemma DeleteUserInCenter(db: Db, actor: Uid, id: Uid, center: CenterId)
    requires IsTeacherAt(db, actor, center) && DeleteUser(db, actor, id).Ok?
    ensures ElsewhereUntouched(db, Removed(db, id), actor, center)
  {
  }

  /** Whatever a Teacher of a center requests, no account, student or link of another center changes. */
  lemma TeachersStayInTheirCenter(db: Db, actor: Uid, request: Request, center: CenterId)
    requires Consistent(db) && IsTeacherAt(db, actor, center)
    ensures ElsewhereUntouched(db, After(db, actor, request), actor, center)
  {
    hide Consistent, RegisterUser, UpdateUser, UpdateStudent, DeleteStudent, Removed, AddStudent, ImportRows, ElsewhereUntouched;
    if Serve(db, actor, request).Ok? {
      match request
      case Register(r) => RegisterInCenter(db, actor, r, center);
      case ChangeUser(id, edit) => EditInCenter(db, actor, id, edit, center);
      case RemoveUser(id) => DeleteUserInCenter(db, actor, id, center);
      case NewStudent(teacher, emails, who) =>
        ConsistentIds(db);
        AddStudentInCenter(db, actor, Student(ResolveTeacher(db, actor, teacher).value, emails, who), center);
      case ChangeStudent(s, edit) => UpdateStudentInCenter(db, actor, s, edit, center);
      case RemoveStudent(s) => DeleteStudentInCenter(db, actor, s, center);
      case BulkImport(rows) => ImportInCenter(db, actor, rows, |rows|, center);
    } else {
      NothingMoves(db, actor, center);
    }
  }

  lemma NothingMoves(db: Db, actor: Uid, center: CenterId)
    ensures ElsewhereUntouched(db, db, actor, center)
  {
  }

  // ---- moving a Teacher to another center -------------------------------------------------

  ghost predicate Moves(db: Db, actor: Uid, id: Uid, edit: Edit)
    requires IsStaff(db, actor)
  {
    && UpdateUser(db, actor, id, edit).Ok?
    && id in db.users && db.users[id].role == Teacher && RoleAfter(db, id, edit) == Teacher
    && UpdateUser(db, actor, id, edit).value.users[id].center != db.users[id].center
    && Teaches(db, id)
  }

  /** Handing over: nobody is left with the moved Teacher, everybody else's students, accounts and
      links stay, and every student stays at the center they were at. */
  lemma TransferKeepsEveryoneInPlace(db: Db, actor: Uid, id: Uid, edit: Edit)
    requires Consistent(db) && IsStaff(db, actor) && Moves(db, actor, id, edit)
    requires edit.studentAction.Transfer?
    ensures var after := UpdateUser(db, actor, id, edit).value;
            && !Teaches(after, id)
            && after.links == db.links
            && (forall u :: u in db.users && u != id ==> u in after.users && after.users[u] == db.users[u])
            && (forall s :: s in db.students ==> s in after.students && CenterOfStudent(after, s) == CenterOfStudent(db, s))
            && (forall s :: s in db.students && db.students[s].teacher != Some(id) ==> after.students[s] == db.students[s])
  {
    hide PlanEdit;
    PlanFacts(db, actor, id, edit);
    TeacherLinksSame(db, actor, id, edit);
    var plan := PlanEdit(db, actor, id, edit).value;
    var relinked := EditLinks(db, actor, id, plan).value;
    assert Teaches(relinked, id);
    forall s | s in db.students ensures CenterOfStudent(UpdateUser(db, actor, id, edit).value, s) == CenterOfStudent(db, s) {
      assert TeacherOk(db, s);
    }
  }

  lemma TeacherLinksSame(db: Db, actor: Uid, id: Uid, edit: Edit)
    requires Consistent(db) && IsStaff(db, actor) && UpdateUser(db, actor, id, edit).Ok?
    requires id in db.users && db.users[id].role == Teacher && RoleAfter(db, id, edit) == Teacher
    ensures var plan := PlanEdit(db, actor, id, edit).value;
            EditLinks(db, actor, id, plan).value.links == db.links
  {
  }

  /** Moving along: the students stay with their Teacher, so they and exactly the families linked to
      them are at the new center; all other accounts stay where they are. */
  lemma MoveTakesFamiliesAlong(db: Db, actor: Uid, id: Uid, edit: Edit)
    requires Consistent(db) && IsStaff(db, actor) && Moves(db, actor, id, edit)
    requires edit.studentAction.Move?
    ensures var after := UpdateUser(db, actor, id, edit).value;
            && after.students == db.students && after.links == db.links
            && (forall s :: TaughtBy(db, s, id) ==> CenterOfStudent(after, s) == after.users[id].center)
            && (forall u :: u in db.users && u != id ==>
                  && u in after.users
                  && after.users[u] == if u in FamiliesOf(db, id) then db.users[u].(center := after.users[id].center) else db.users[u])
  {
    hide PlanEdit;
    PlanFacts(db, actor, id, edit);
    TeacherLinksSame(db, actor, id, edit);
    var plan := PlanEdit(db, actor, id, edit).value;
    var relinked := EditLinks(db, actor, id, plan).value;
    assert Teaches(relinked, id);
    forall u | u in db.users && u != id ensures u in FamiliesOf(relinked, id) <==> u in FamiliesOf(db, id) {
      if s :| (u, s) in db.links && TaughtBy(db, s, id) { assert TaughtBy(relinked, s, id); }
      if s :| (u, s) in relinked.links && TaughtBy(relinked, s, id) { assert TaughtBy(db, s, id); }
    }
  }
}
