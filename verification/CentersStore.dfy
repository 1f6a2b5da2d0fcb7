/** The controllers as they run: each request checks, opens a transaction, writes table by table, and
    rolls everything back when a check inside fails. Each is proved equal to its transaction in Centers. */
module CentersStore {
  import opened Options
  import opened Centers

  datatype Reply = Done | Refused(reason: Refusal)

  ghost predicate Answers(reply: Reply, after: Db, before: Db, outcome: Result<Db, Refusal>) {
    if outcome.Ok? then reply == Done && after == outcome.value else reply == Refused(outcome.error) && after == before
  }

  class Tables {
    var users: map<Uid, User>
    var students: map<Sid, Student>
    var links: set<(Uid, Sid)>
    var nextUser: Uid
    var nextStudent: Sid
    const centers: set<CenterId>

    function Contents(): Db
      reads this
    {
      Db(users, students, links, centers, nextUser, nextStudent)
    }

    constructor (centers: set<CenterId>, admin: User)
      ensures Contents() == Db(map[1 := admin], map[], {}, centers, 2, 1)
    {
      users, students, links := map[1 := admin], map[], {};
      nextUser, nextStudent := 2, 1;
      this.centers := centers;
    }

    method Rollback(before: Db)
      requires before.centers == centers
      modifies this
      ensures Contents() == before
    {
      users, students, links := before.users, before.students, before.links;
      nextUser, nextStudent := before.nextUser, before.nextStudent;
    }

    predicate Linked(u: Uid)
      reads this
      ensures Linked(u) == HasLink(Contents(), u)
    {
      LinkedMeans(Contents(), u);
      exists l :: l in links && l.0 == u
    }

    // ---- links ----

    method LinkStudentsByEmail(u: Uid, email: Email, center: Option<CenterId>)
      modifies this`links
      ensures Contents() == Centers.LinkStudentsByEmail(old(Contents()), u, email, center)
    {
      if center == None {
        return;
      }
      var found := set s | s in students && email in EmailsOf(students[s].emails) && CenterOfStudent(Contents(), s) == center;
      links := links + set s | s in found :: (u, s);
    }

    method LinkAccountsByEmail(s: Sid, emails: set<Email>)
      modifies this`links, this`users
      ensures Contents() == Centers.LinkAccountsByEmail(old(Contents()), s, emails)
    {
      var center := CenterOfStudent(Contents(), s);
      if center == None {
        return;
      }
      var accounts := MatchingAccounts(Contents(), emails, center);
      links := links + set u | u in accounts :: (u, s);
      users := Activate(users, accounts);
    }

    method CenterFromStudents(ids: set<Sid>) returns (center: Result<CenterId, Refusal>)
      ensures center == Centers.CenterFromStudents(Contents(), ids)
    {
      if ids == {} {
        return Err(BadRequest);
      }
      if exists s :: s in ids && CenterOfStudent(Contents(), s) == None {
        return Err(BadRequest);
      }
      SomeIn(ids);
      var s :| s in ids;
      var c := CenterOfStudent(Contents(), s).value;
      if exists t :: t in ids && CenterOfStudent(Contents(), t) != Some(c) {
        return Err(BadRequest);
      }
      assert AllAt(Contents(), ids, c);
      return Ok(c);
    }

    // ---- accounts ----

    method RegisterUser(actor: Uid, r: Registration) returns (reply: Reply)
      requires IsStaff(Contents(), actor)
      modifies this
      ensures Answers(reply, Contents(), old(Contents()), Centers.RegisterUser(old(Contents()), actor, r))
    {
      hide Centers.CenterFromStudents, ParseStudentIds, CenterOfStudent, InScope, EmailTaken, HasLink;
      var me := users[actor];
      if !Linkable(r.role) && me.role != Admin {
        return Refused(Forbidden);
      }
      var parsed := ParseStudentIds(r.studentIds);
      if parsed.Err? {
        return Refused(parsed.error);
      }
      var ids := parsed.value;
      if ids != {} && !Linkable(r.role) {
        return Refused(BadRequest);
      }
      var center: Option<CenterId> := None;
      if me.role == Teacher {
        if me.center == None || !CanAccessAll(Contents(), actor, ids) {
          return Refused(Forbidden);
        }
        center := me.center;
      } else if Linkable(r.role) {
        var derived := CenterFromStudents(ids);
        if derived.Err? {
          return Refused(derived.error);
        }
        center := Some(derived.value);
      } else if r.role != Admin {
        if r.center == None || r.center.value !in centers {
          return Refused(BadRequest);
        }
        center := r.center;
      }
      if EmailTaken(Contents(), r.email, None) {
        return Refused(Conflict);
      }
      var before := Contents();
      var u := nextUser;
      users, nextUser := users[u := User(r.role, center, true, r.email)], u + 1;
      links := links + set s | s in ids :: (u, s);
      if Linkable(r.role) {
        LinkStudentsByEmail(u, r.email, center);
        if !Linked(u) {
          Rollback(before);
          return Refused(BadRequest);
        }
      }
      return Done;
    }

    // An Admin moving a Teacher says what happens to the students; nothing is decided by default.
    method ResolveStudentsOfMovedTeacher(t: Uid, from': Option<CenterId>, to: Option<CenterId>, action: StudentAction)
      returns (refused: bool)
      modifies this`users, this`students
      ensures var outcome := Centers.ResolveStudentsOfMovedTeacher(old(Contents()), t, from', to, action);
              if refused then outcome == Err(BadRequest) && Contents() == old(Contents()) else outcome == Ok(Contents())
    {
      if forall s :: s in students ==> students[s].teacher != Some(t) {
        return false;
      }
      match action {
        case Transfer(next) =>
          if next == t || next !in users || users[next].role != Teacher || !users[next].active
             || from' == None || users[next].center != from' {
            return true;
          }
          students := Reassign(students, t, next);
        case Move =>
          var families := set l | l in links && l.0 in users && Linkable(users[l.0].role) && TaughtBy(Contents(), l.1, t) :: l.0;
          assert families == FamiliesOf(Contents(), t) by { FamiliesAreLinked(Contents(), families, t); }
          if exists l :: l in links && l.0 in families && !TaughtBy(Contents(), l.1, t) {
            return true;
          }
          users := Resettle(users, families, to);
        case Undecided =>
          return true;
      }
      return false;
    }

    method ReplaceLinks(me: User, actor: Uid, id: Uid, ids: set<Sid>) returns (refused: bool)
      requires id in users
      modifies this`links, this`users
      ensures var outcome := Relink(old(Contents()), me, actor, id, ids);
              outcome == if refused then Err(BadRequest) else Ok(Contents())
    {
      var db := Contents();
      links := set l | l in links && !(l.0 == id && (me.role == Admin || InScope(db, me.role, me.center, actor, l.1)));
      if ids != {} {
        if !(ids <= students.Keys) {
          return true;
        }
        links := links + set s | s in ids :: (id, s);
        users := users[id := users[id].(active := true)];
      }
      return false;
    }

    method NewCenter(actor: Uid, id: Uid, edit: Edit, ids: Option<set<Sid>>) returns (center: Result<Option<CenterId>, Refusal>)
      requires actor in users && id in users
      ensures center == CenterAfter(Contents(), actor, id, edit, ids)
    {
      var existing, role := users[id], RoleAfter(Contents(), id, edit);
      var isAdmin := users[actor].role == Admin;
      center := Ok(existing.center);
      if role == Admin {
        center := Ok(None);
      } else if Linkable(role) {
        if isAdmin && ids.Some? {
          var derived := CenterFromStudents(ids.value);
          center := if derived.Ok? then Ok(Some(derived.value)) else Err(derived.error);
        } else if isAdmin && !Linkable(existing.role) {
          center := Err(BadRequest);
        }
      } else if edit.center.Some? && edit.center.value != existing.center {
        center := if !isAdmin then Err(Forbidden)
                  else if edit.center.value.Some? && edit.center.value.value in centers then Ok(edit.center.value)
                  else Err(BadRequest);
      }
    }

    method Plan(actor: Uid, id: Uid, edit: Edit) returns (plan: Result<Plan, Refusal>)
      requires actor in users
      ensures plan == PlanEdit(Contents(), actor, id, edit)
    {
      var refusal := EditRefusal(Contents(), actor, id, edit);
      if refusal.Some? {
        return Err(refusal.value);
      }
      var role := RoleAfter(Contents(), id, edit);
      var ids: Option<set<Sid>> := None;
      if edit.studentIds.Some? {
        var parsed := ParseStudentIds(edit.studentIds.value);
        if parsed.Err? {
          return Err(parsed.error);
        }
        if parsed.value != {} && !Linkable(role) {
          return Err(BadRequest);
        }
        ids := Some(parsed.value);
      }
      var center := NewCenter(actor, id, edit, ids);
      if center.Err? {
        return Err(center.error);
      }
      if role != Admin && center.value == None {
        return Err(BadRequest);
      }
      if users[actor].role == Teacher && ids.Some? && !CanAccessAll(Contents(), actor, ids.value) {
        return Err(Forbidden);
      }
      return Ok(Centers.Plan(role, if edit.email.Some? then edit.email.value else users[id].email, center.value, ids));
    }

    method UpdateUser(actor: Uid, id: Uid, edit: Edit) returns (reply: Reply)
      requires IsStaff(Contents(), actor)
      modifies this
      ensures Answers(reply, Contents(), old(Contents()), Centers.UpdateUser(old(Contents()), actor, id, edit))
    {
      hide Centers.CenterFromStudents, Centers.ResolveStudentsOfMovedTeacher, CenterAfter, PlanEdit;
      hide Relink, Centers.LinkStudentsByEmail, LinksInCenter;
      var planned := Plan(actor, id, edit);
      if planned.Err? {
        return Refused(planned.error);
      }
      var plan := planned.value;
      reply := SaveEdit(actor, id, plan, edit.studentAction);
    }

    method SaveEdit(actor: Uid, id: Uid, plan: Plan, action: StudentAction) returns (reply: Reply)
      requires actor in users && id in users
      modifies this
      ensures Answers(reply, Contents(), old(Contents()), ApplyEdit(old(Contents()), actor, id, plan, action))
    {
      hide Centers.ResolveStudentsOfMovedTeacher, Relink, Centers.LinkStudentsByEmail, CenterOfStudent, InScope;
      var before := Contents();
      var me, existing := users[actor], users[id];
      if EmailTaken(before, plan.email, Some(id)) {
        return Refused(Conflict);
      }
      users := users[id := existing.(role := plan.role, email := plan.email, center := plan.center)];
      var refused := false;
      if plan.ids.Some? {
        refused := ReplaceLinks(me, actor, id, plan.ids.value);
      } else if Linkable(existing.role) && !Linkable(plan.role) {
        links := set l | l in links && l.0 != id;
      }
      if !refused && plan.center != existing.center && existing.role == Teacher && plan.role == Teacher {
        refused := ResolveStudentsOfMovedTeacher(id, existing.center, plan.center, action);
      }
      if !refused && Linkable(plan.role) {
        if !Linkable(existing.role) || plan.center != existing.center || plan.email != existing.email {
          LinkStudentsByEmail(id, plan.email, plan.center);
        }
        var elsewhere := exists l :: l in links && l.0 == id && CenterOfStudent(Contents(), l.1) != plan.center;
        refused := (plan.center != existing.center && elsewhere) || !Linked(id);
      }
      if refused {
        Rollback(before);
        return Refused(BadRequest);
      }
      return Done;
    }

    method DeleteUser(actor: Uid, id: Uid) returns (reply: Reply)
      requires IsStaff(Contents(), actor)
      modifies this
      ensures Answers(reply, Contents(), old(Contents()), Centers.DeleteUser(old(Contents()), actor, id))
    {
      var me := users[actor];
      if id == actor {
        return Refused(BadRequest);
      }
      if id !in users {
        return Refused(NotFound);
      }
      if me.role == Teacher {
        if !Linkable(users[id].role) || me.center == None {
          return Refused(Forbidden);
        }
        if users[id].center != me.center {
          return Refused(NotFound);
        }
        if exists l :: l in links && l.0 == id && !InScope(Contents(), me.role, me.center, actor, l.1) {
          return Refused(Forbidden);
        }
      }
      users := users - {id};
      links := set l | l in links && l.0 != id;
      students := map s | s in students :: if students[s].teacher == Some(id) then students[s].(teacher := None) else students[s];
      return Done;
    }

    // ---- students ----

    method AddStudent(student: Student)
      modifies this
      ensures Contents() == Centers.AddStudent(old(Contents()), student)
    {
      var s := nextStudent;
      students, nextStudent := students[s := student], s + 1;
      LinkAccountsByEmail(s, EmailsOf(student.emails));
    }

    method CreateStudent(actor: Uid, teacher: Option<Option<Uid>>, emails: Emails, who: string) returns (reply: Reply)
      requires IsStaff(Contents(), actor)
      modifies this
      ensures Answers(reply, Contents(), old(Contents()), Centers.CreateStudent(old(Contents()), actor, teacher, emails, who))
    {
      var t := ResolveTeacher(Contents(), actor, teacher);
      if t.Err? {
        return Refused(t.error);
      }
      AddStudent(Student(t.value, emails, who));
      return Done;
    }

    method UpdateStudent(actor: Uid, s: Sid, edit: StudentEdit) returns (reply: Reply)
      requires IsStaff(Contents(), actor)
      modifies this
      ensures Answers(reply, Contents(), old(Contents()), Centers.UpdateStudent(old(Contents()), actor, s, edit))
    {
      hide Centers.LinkAccountsByEmail, ChangedEmails;
      if !CanAccess(Contents(), actor, s) || (edit.teacher.Some? && users[actor].role != Admin) {
        return Refused(Forbidden);
      }
      var chosen: Option<Uid> := None;
      if edit.teacher.Some? {
        var t := ResolveTeacher(Contents(), actor, edit.teacher);
        if t.Err? {
          return Refused(t.error);
        }
        chosen := t.value;
      }
      if s !in students {
        return Refused(NotFound);
      }
      var before, row := Contents(), students[s];
      var next := if edit.teacher.Some? then chosen else row.teacher;
      students := students[s := EditedStudent(row, edit, next)];
      if next != row.teacher {
        var center := if next.Some? && next.value in users then users[next.value].center else None;
        if exists l :: l in links && l.1 == s && !(center.Some? && l.0 in users && users[l.0].center == center) {
          Rollback(before);
          return Refused(BadRequest);
        }
      }
      LinkAccountsByEmail(s, ChangedEmails(edit, row.emails));
      return Done;
    }

    method DeleteStudent(actor: Uid, s: Sid) returns (reply: Reply)
      requires IsStaff(Contents(), actor)
      modifies this
      ensures Answers(reply, Contents(), old(Contents()), Centers.DeleteStudent(old(Contents()), actor, s))
    {
      if !CanAccess(Contents(), actor, s) {
        return Refused(Forbidden);
      }
      if s !in students {
        return Refused(NotFound);
      }
      var parents := set l | l in links && l.1 == s :: l.0;
      students, links := students - {s}, set l | l in links && l.1 != s;
      var childless := set u | u in parents && u in users && Linkable(users[u].role) && !Linked(u);
      users := map u | u in users :: if u in childless then users[u].(active := false) else users[u];
      return Done;
    }

    method ImportStudents(actor: Uid, rows: seq<Row>) returns (reply: Reply, created: nat, failed: seq<nat>)
      requires IsStaff(Contents(), actor)
      modifies this
      ensures var outcome := Centers.ImportStudents(old(Contents()), actor, rows);
              if outcome.Ok? then
                reply == Done && Contents() == outcome.value.0 && failed == outcome.value.1 && created + |failed| == |rows|
              else reply == Refused(outcome.error) && Contents() == old(Contents())
    {
      hide Centers.AddStudent;
      created, failed := 0, [];
      if rows == [] || |rows| > MAX_IMPORT_ROWS {
        return Refused(BadRequest), created, failed;
      }
      var teacher := TeacherOfRows(Contents(), actor);
      for i := 0 to |rows|
        invariant (Contents(), failed) == ImportRows(old(Contents()), rows, i, teacher)
        invariant created + |failed| == i
      {
        if rows[i].Malformed? || IsDuplicate(Contents(), rows[i].who, teacher) {
          failed := failed + [i + 2];
        } else {
          AddStudent(Student(teacher, rows[i].emails, rows[i].who));
          created := created + 1;
        }
      }
      return Done, created, failed;
    }
  }

  lemma LinkedMeans(db: Db, u: Uid)
    ensures HasLink(db, u) <==> exists l :: l in db.links && l.0 == u
  {
    if s :| (u, s) in db.links {
      assert (u, s).0 == u;
    }
    forall l | l in db.links && l.0 == u ensures HasLink(db, u) {
      var s := l.1;
      assert (u, s) in db.links;
    }
  }

  lemma FamiliesAreLinked(db: Db, families: set<Uid>, t: Uid)
    requires families == set l | l in db.links && l.0 in db.users && Linkable(db.users[l.0].role) && TaughtBy(db, l.1, t) :: l.0
    ensures families == FamiliesOf(db, t)
  {
  }
}
