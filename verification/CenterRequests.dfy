/** What each request of a staff member leaves in the tables, row by row, and exactly when it goes through. */
module CenterRequests {
  import opened Options
  import opened Centers

  // ---- vocabulary --------------------------------------------------------------------

  ghost predicate IsFamily(role: Role) {
    role == Parent || role == Guardian
  }

  // The student's Teacher is at this center.
  ghost predicate IsAt(db: Db, s: Sid, center: CenterId) {
    && s in db.students && db.students[s].teacher.Some? && db.students[s].teacher.value in db.users
    && db.users[db.students[s].teacher.value].center == Some(center)
  }

  ghost predicate Lists(e: Emails, email: Email) {
    e.mother == Some(email) || e.father == Some(email) || e.guardian == Some(email)
  }

  // An active member of staff.
  ghost predicate MayAsk(db: Db, actor: Uid) {
    actor in db.users && db.users[actor].active && !IsFamily(db.users[actor].role)
  }

  // An Admin, the student's own Teacher, or a Teacher of the center the student is at.
  ghost predicate MayTouch(db: Db, actor: Uid, s: Sid)
    requires actor in db.users
  {
    || db.users[actor].role == Admin
    || (&& db.users[actor].role == Teacher && s in db.students
        && (|| db.students[s].teacher == Some(actor)
            || (db.users[actor].center.Some? && IsAt(db, s, db.users[actor].center.value))))
  }

  ghost predicate IsTeacher(db: Db, t: Uid) {
    t in db.users && db.users[t].role == Teacher
  }

  lemma ListsMeans(e: Emails, email: Email)
    ensures email in EmailsOf(e) <==> Lists(e, email)
  {
  }

  lemma AtMeans(db: Db, s: Sid, center: CenterId)
    ensures CenterOfStudent(db, s) == Some(center) <==> IsAt(db, s, center)
  {
  }

  // ---- editing a student ---------------------------------------------------------------

  // The emails the edit gives a parent of the student who did not have them before.
  ghost function GivenEmails(edit: StudentEdit, before: Emails): iset<Email> {
    iset e: Email | || (edit.mother == Some(Some(e)) && before.mother != Some(e))
                    || (edit.father == Some(Some(e)) && before.father != Some(e))
                    || (edit.guardian == Some(Some(e)) && before.guardian != Some(e))
  }

  // The row keeps what was not sent and holds what was.
  ghost predicate RowEdited(before: Student, after: Student, edit: StudentEdit) {
    && after.teacher == (match edit.teacher case Some(t) => t case None => before.teacher)
    && after.emails.mother == (match edit.mother case Some(e) => e case None => before.emails.mother)
    && after.emails.father == (match edit.father case Some(e) => e case None => before.emails.father)
    && after.emails.guardian == (match edit.guardian case Some(e) => e case None => before.emails.guardian)
    && after.who == (match edit.who case Some(w) => w case None => before.who)
  }

  // A family account at the center of the student's Teacher with one of these emails.
  ghost predicate IsMatch(db: Db, u: Uid, s: Sid, emails: iset<Email>) {
    && u in db.users && IsFamily(db.users[u].role) && db.users[u].email in emails
    && db.users[u].center.Some? && IsAt(db, s, db.users[u].center.value)
  }

  // Exactly the matching accounts are linked to the student, and active.
  ghost predicate LinksMatches(db: Db, after: Db, s: Sid, emails: iset<Email>) {
    && after.users.Keys == db.users.Keys
    && (forall u :: u in db.users ==>
          after.users[u] == if IsMatch(after, u, s, emails) then db.users[u].(active := true) else db.users[u])
    && (forall l: (Uid, Sid) :: l in after.links <==> l in db.links || (l.1 == s && IsMatch(after, l.0, s, emails)))
  }

  lemma LinksExactly(db: Db, s: Sid, emails: set<Email>, means: iset<Email>)
    requires forall e :: e in emails <==> e in means
    ensures var after := LinkAccountsByEmail(db, s, emails);
            && LinksMatches(db, after, s, means)
            && after == db.(users := after.users, links := after.links)
  {
    var after := LinkAccountsByEmail(db, s, emails);
    var center := CenterOfStudent(db, s);
    if center.Some? {
      forall u | u in db.users ensures IsMatch(after, u, s, means) <==> u in MatchingAccounts(db, emails, center) {}
    }
  }

  ghost predicate StudentEditAllowed(db: Db, actor: Uid, s: Sid, edit: StudentEdit) {
    && MayAsk(db, actor) && MayTouch(db, actor, s) && s in db.students
    && (edit.teacher.Some? ==>
          && db.users[actor].role == Admin
          && (edit.teacher.value.Some? ==> IsTeacher(db, edit.teacher.value.value))
          && (edit.teacher.value != db.students[s].teacher ==> FamiliesAreAt(db, s, edit.teacher.value)))
  }

  // Every account linked to the student is at the center of this teacher.
  ghost predicate FamiliesAreAt(db: Db, s: Sid, teacher: Option<Uid>) {
    forall l :: l in db.links && l.1 == s ==>
      && teacher.Some? && teacher.value in db.users && db.users[teacher.value].center.Some?
      && l.0 in db.users && db.users[l.0].center == db.users[teacher.value].center
  }

  lemma TouchMeans(db: Db, actor: Uid, s: Sid)
    requires actor in db.users
    ensures CanAccess(db, actor, s) <==> MayTouch(db, actor, s)
  {
  }

  lemma EditAccepted(db: Db, actor: Uid, s: Sid, edit: StudentEdit)
    requires IsStaff(db, actor) && db.users[actor].active
    ensures UpdateStudent(db, actor, s, edit).Ok? <==> StudentEditAllowed(db, actor, s, edit)
  {
    hide LinkAccountsByEmail, CanAccess, MayTouch, EditedStudent;
    TouchMeans(db, actor, s);
  }

  /** Editing a student goes through exactly when the actor may touch the student, an Admin chose an existing
      Teacher (or none), and no linked family is left at another center. Then the row holds every value that
      was sent and keeps the others, all other students are as they were, and exactly the family accounts that
      match an email the edit gave the student, at the center of the teacher they now have, are linked and active. */
  lemma StudentEditStores(db: Db, actor: Uid, s: Sid, edit: StudentEdit)
    ensures var outcome := Serve(db, actor, ChangeStudent(s, edit));
            && (outcome.Ok? <==> StudentEditAllowed(db, actor, s, edit))
            && (outcome.Ok? ==>
                  var after := outcome.value;
                  && after.students.Keys == db.students.Keys && RowEdited(db.students[s], after.students[s], edit)
                  && (forall x :: x in db.students && x != s ==> after.students[x] == db.students[x])
                  && LinksMatches(db, after, s, GivenEmails(edit, db.students[s].emails))
                  && after == db.(students := after.students, users := after.users, links := after.links))
  {
    hide LinkAccountsByEmail, StudentEditAllowed, UpdateStudent, LinksMatches, RowEdited;
    if MayAsk(db, actor) {
      EditAccepted(db, actor, s, edit);
      if UpdateStudent(db, actor, s, edit).Ok? {
        EditWrites(db, actor, s, edit);
      }
    } else {
      assert !StudentEditAllowed(db, actor, s, edit) by { NotAllowed(db, actor, s, edit); }
    }
  }

  lemma NotAllowed(db: Db, actor: Uid, s: Sid, edit: StudentEdit)
    requires !MayAsk(db, actor)
    ensures !StudentEditAllowed(db, actor, s, edit)
  {
  }

  lemma EditWrites(db: Db, actor: Uid, s: Sid, edit: StudentEdit)
    requires IsStaff(db, actor) && UpdateStudent(db, actor, s, edit).Ok?
    ensures var after := UpdateStudent(db, actor, s, edit).value;
            && s in db.students && after.students.Keys == db.students.Keys && RowEdited(db.students[s], after.students[s], edit)
            && (forall x :: x in db.students && x != s ==> after.students[x] == db.students[x])
            && LinksMatches(db, after, s, GivenEmails(edit, db.students[s].emails))
            && after == db.(students := after.students, users := after.users, links := after.links)
  {
    hide LinkAccountsByEmail, LinksMatches, ParentsAtCenterOf, CanAccess;
    var before := db.students[s];
    var next := if edit.teacher.Some? then ResolveTeacher(db, actor, edit.teacher).value else before.teacher;
    var updated := db.(students := db.students[s := EditedStudent(before, edit, next)]);
    LinksExactly(updated, s, ChangedEmails(edit, before.emails), GivenEmails(edit, before.emails));
    SameLinks(updated, db, UpdateStudent(db, actor, s, edit).value, s, GivenEmails(edit, before.emails));
  }

  // Linking looks only at the accounts and the links that were there.
  lemma SameLinks(a: Db, b: Db, after: Db, s: Sid, emails: iset<Email>)
    requires LinksMatches(a, after, s, emails) && a.users == b.users && a.links == b.links
    ensures LinksMatches(b, after, s, emails)
  {
  }

  // ---- new and removed students ----------------------------------------------------------

  ghost function ListedEmails(e: Emails): iset<Email> {
    iset email: Email | Lists(e, email)
  }

  // The student is stored under the next number, and linked to the family accounts that match one of its emails.
  ghost predicate StudentStored(db: Db, after: Db, student: Student) {
    && after.students == db.students[db.nextStudent := student] && after.nextStudent == db.nextStudent + 1
    && LinksMatches(db, after, db.nextStudent, ListedEmails(student.emails))
    && after.centers == db.centers && after.nextUser == db.nextUser
  }

  lemma AddStores(db: Db, student: Student)
    ensures StudentStored(db, AddStudent(db, student), student)
  {
    hide LinkAccountsByEmail, LinksMatches;
    var added := db.(students := db.students[db.nextStudent := student], nextStudent := db.nextStudent + 1);
    forall e ensures e in EmailsOf(student.emails) <==> e in ListedEmails(student.emails) {
      ListsMeans(student.emails, e);
    }
    LinksExactly(added, db.nextStudent, EmailsOf(student.emails), ListedEmails(student.emails));
    SameLinks(added, db, AddStudent(db, student), db.nextStudent, ListedEmails(student.emails));
  }

  /** A Teacher's new student is their own, whatever was sent; an Admin chooses an existing Teacher or none. */
  lemma NewStudentStores(db: Db, actor: Uid, teacher: Option<Option<Uid>>, emails: Emails, who: string)
    ensures var outcome := Serve(db, actor, NewStudent(teacher, emails, who));
            && (outcome.Ok? <==> MayAsk(db, actor) && (db.users[actor].role == Admin ==>
                                   teacher.Some? && (teacher.value.Some? ==> IsTeacher(db, teacher.value.value))))
            && (outcome.Ok? ==>
                  StudentStored(db, outcome.value,
                    Student(if db.users[actor].role == Teacher then Some(actor) else teacher.value, emails, who)))
  {
    hide AddStudent, StudentStored;
    if MayAsk(db, actor) && ResolveTeacher(db, actor, teacher).Ok? {
      AddStores(db, Student(ResolveTeacher(db, actor, teacher).value, emails, who));
    }
  }

  /** Deleting a student removes its row and its links and nobody else's; exactly the active family accounts
      whose only child it was are deactivated. */
  lemma RemoveStudentExactly(db: Db, actor: Uid, s: Sid)
    ensures var outcome := Serve(db, actor, RemoveStudent(s));
            && (outcome.Ok? <==> MayAsk(db, actor) && MayTouch(db, actor, s) && s in db.students)
            && (outcome.Ok? ==>
                  var after := outcome.value;
                  && after.students == db.students - {s} && after.users.Keys == db.users.Keys
                  && (forall l: (Uid, Sid) :: l in after.links <==> l in db.links && l.1 != s)
                  && (forall u :: u in db.users ==>
                        var onlyChild := IsFamily(db.users[u].role) && (u, s) in db.links && forall x: Sid :: (u, x) in db.links ==> x == s;
                        after.users[u] == if onlyChild then db.users[u].(active := false) else db.users[u])
                  && after == db.(students := after.students, users := after.users, links := after.links))
  {
    hide CanAccess, MayTouch;
    if actor in db.users {
      TouchMeans(db, actor, s);
    }
    if MayAsk(db, actor) && CanAccess(db, actor, s) && s in db.students {
      var left := WithoutStudent(db, s);
      forall u ensures HasLink(left, u) <==> exists x: Sid :: (u, x) in db.links && x != s {
        if x: Sid :| (u, x) in db.links && x != s { assert (u, x) in left.links; }
      }
    }
  }

  /** One row of an import: a malformed row or a child the teacher already has changes nothing; any other row
      stores its student and links the matching accounts. */
  lemma ImportRowExactly(db: Db, row: Row, teacher: Option<Uid>)
    ensures var after := ImportRow(db, row, teacher);
            if row.Malformed? || exists s :: s in db.students && db.students[s].who == row.who && db.students[s].teacher == teacher
            then after == db else StudentStored(db, after, Student(teacher, row.emails, row.who))
  {
    hide AddStudent, StudentStored;
    if row.Row? {
      AddStores(db, Student(teacher, row.emails, row.who));
    }
  }

  /** A file of one to five hundred rows is taken; a Teacher's rows become their own students, an Admin's nobody's. */
  lemma ImportAccepted(db: Db, actor: Uid, rows: seq<Row>)
    ensures var outcome := Serve(db, actor, BulkImport(rows));
            && (outcome.Ok? <==> MayAsk(db, actor) && 1 <= |rows| <= 500)
            && (outcome.Ok? ==>
                  outcome.value == ImportRows(db, rows, |rows|, if db.users[actor].role == Teacher then Some(actor) else None).0)
  {
    hide ImportRow;
  }

  // ---- removing an account -----------------------------------------------------------------

  // Every student linked to the account is at this center.
  ghost predicate ReachesOnly(db: Db, id: Uid, center: CenterId) {
    forall s: Sid :: (id, s) in db.links ==> IsAt(db, s, center)
  }

  ghost predicate RemovalAllowed(db: Db, actor: Uid, id: Uid) {
    && MayAsk(db, actor) && id != actor && id in db.users
    && (db.users[actor].role == Teacher ==>
          && IsFamily(db.users[id].role) && db.users[actor].center.Some? && db.users[id].center == db.users[actor].center
          && ReachesOnly(db, id, db.users[actor].center.value))
  }

  /** Nobody deletes their own account; a Teacher deletes only families of their own center that reach no student
      elsewhere. The account's links go with it, and its students are left without a teacher. */
  lemma RemoveUserExactly(db: Db, actor: Uid, id: Uid)
    ensures var outcome := Serve(db, actor, RemoveUser(id));
            && (outcome.Ok? <==> RemovalAllowed(db, actor, id))
            && (outcome.Ok? ==>
                  var after := outcome.value;
                  && after.users == db.users - {id} && after.students.Keys == db.students.Keys
                  && (forall l: (Uid, Sid) :: l in after.links <==> l in db.links && l.0 != id)
                  && (forall s :: s in db.students ==>
                        after.students[s] == if db.students[s].teacher == Some(id) then Student(None, db.students[s].emails, db.students[s].who)
                                             else db.students[s])
                  && after == db.(students := after.students, users := after.users, links := after.links))
  {
    hide InScope, ReachesOnly, CenterOfStudent;
    if MayAsk(db, actor) && db.users[actor].role == Teacher && db.users[actor].center.Some? {
      ReachMeans(db, actor, id);
    }
  }

  lemma ReachMeans(db: Db, actor: Uid, id: Uid)
    requires actor in db.users && db.users[actor].role == Teacher && db.users[actor].center.Some?
    ensures ReachesOnly(db, id, db.users[actor].center.value)
       <==> forall l :: l in db.links && l.0 == id ==> InScope(db, Teacher, db.users[actor].center, actor, l.1)
  {
    var center := db.users[actor].center.value;
    forall l | l in db.links && l.0 == id ensures InScope(db, Teacher, Some(center), actor, l.1) <==> IsAt(db, l.1, center) {
      AtMeans(db, l.1, center);
    }
    if forall l :: l in db.links && l.0 == id ==> InScope(db, Teacher, Some(center), actor, l.1) {
      forall s: Sid | (id, s) in db.links ensures IsAt(db, s, center) {
        var l := (id, s);
        assert l in db.links;
      }
    }
  }

  // ---- a new account -------------------------------------------------------------------------

  // A list of student numbers as it must be sent: at most a hundred, all positive.
  ghost predicate IsProperList(raw: seq<int>) {
    |raw| <= 100 && forall k :: 0 <= k < |raw| ==> raw[k] > 0
  }

  ghost predicate AllAreAt(db: Db, raw: seq<int>, center: CenterId) {
    forall s :: s in raw ==> IsAt(db, s, center)
  }

  // The center of the new account: a Teacher's own; where all the selected students are; or the chosen one.
  ghost predicate NewAccountIsAt(db: Db, actor: Uid, r: Registration, center: Option<CenterId>)
    requires actor in db.users
  {
    if db.users[actor].role == Teacher then
      center.Some? && db.users[actor].center == center && AllAreAt(db, r.studentIds, center.value)
    else if IsFamily(r.role) then
      center.Some? && r.studentIds != [] && AllAreAt(db, r.studentIds, center.value)
    else if r.role == Teacher then
      center.Some? && r.center == center && center.value in db.centers
    else center == None
  }

  ghost predicate IsUsed(db: Db, email: Email) {
    exists u :: u in db.users && db.users[u].email == email
  }

  // A student the new family account reaches: a selected one, or one at its center that lists its email.
  ghost predicate WillReach(db: Db, r: Registration, center: Option<CenterId>, s: Sid) {
    && IsFamily(r.role)
    && (s in r.studentIds || (center.Some? && IsAt(db, s, center.value) && Lists(db.students[s].emails, r.email)))
  }

  ghost predicate RegistrationAllowed(db: Db, actor: Uid, r: Registration, center: Option<CenterId>) {
    && MayAsk(db, actor) && (IsFamily(r.role) || db.users[actor].role == Admin)
    && IsProperList(r.studentIds) && (r.studentIds != [] ==> IsFamily(r.role))
    && NewAccountIsAt(db, actor, r, center)
    && !IsUsed(db, r.email)
    && (IsFamily(r.role) ==> exists s :: WillReach(db, r, center, s))
  }

  lemma IdsMeans(raw: seq<int>)
    ensures ParseStudentIds(raw).Ok? <==> IsProperList(raw)
    ensures IsProperList(raw) ==> (forall s :: s in ParseStudentIds(raw).value <==> s in raw) && (ParseStudentIds(raw).value == {} <==> raw == [])
  {
    if IsProperList(raw) && raw != [] {
      assert raw[0] in ParseStudentIds(raw).value;
    }
  }

  lemma SelectedMeans(db: Db, ids: set<Sid>, center: CenterId)
    ensures CenterFromStudents(db, ids) == Ok(center) <==> ids != {} && forall s :: s in ids ==> IsAt(db, s, center)
  {
    hide IsAt, CenterOfStudent;
    forall s ensures CenterOfStudent(db, s) == Some(center) <==> IsAt(db, s, center) { AtMeans(db, s, center); }
    if ids != {} && CenterFromStudents(db, ids).Ok? {
      var s := AnyOf(ids);
    }
  }

  lemma ScopeMeans(db: Db, actor: Uid, ids: set<Sid>)
    requires actor in db.users && db.users[actor].role == Teacher && db.users[actor].center.Some?
    ensures CanAccessAll(db, actor, ids) <==> forall s :: s in ids ==> IsAt(db, s, db.users[actor].center.value)
  {
    forall s ensures InScope(db, Teacher, db.users[actor].center, actor, s) <==> IsAt(db, s, db.users[actor].center.value) {
      AtMeans(db, s, db.users[actor].center.value);
    }
  }

  lemma NewCenterMeans(db: Db, actor: Uid, r: Registration, center: Option<CenterId>)
    requires IsStaff(db, actor) && IsProperList(r.studentIds) && (r.studentIds != [] ==> IsFamily(r.role))
    requires IsFamily(r.role) || db.users[actor].role == Admin
    ensures CenterOfNewAccount(db, actor, r, ParseStudentIds(r.studentIds).value) == Ok(center) <==> NewAccountIsAt(db, actor, r, center)
  {
    hide CenterFromStudents, CanAccessAll, IsAt, ParseStudentIds;
    IdsMeans(r.studentIds);
    var ids := ParseStudentIds(r.studentIds).value;
    if db.users[actor].role == Teacher {
      if db.users[actor].center.Some? {
        ScopeMeans(db, actor, ids);
      }
    } else if center.Some? {
      SelectedMeans(db, ids, center.value);
    }
  }

  // The next number has never been given out.
  ghost predicate NumberIsFresh(db: Db) {
    && db.nextUser !in db.users
    && (forall l :: l in db.links ==> l.0 != db.nextUser)
    && (forall s :: s in db.students ==> db.students[s].teacher != Some(db.nextUser))
  }

  ghost predicate AccountStored(db: Db, after: Db, r: Registration, center: Option<CenterId>) {
    && after.users == db.users[db.nextUser := User(r.role, center, true, r.email)] && after.nextUser == db.nextUser + 1
    && (forall l: (Uid, Sid) :: l in after.links <==> l in db.links || (l.0 == db.nextUser && WillReach(db, r, center, l.1)))
    && after == db.(users := after.users, nextUser := after.nextUser, links := after.links)
  }

  lemma CreateMeans(db: Db, r: Registration, center: Option<CenterId>, ids: set<Sid>)
    requires NumberIsFresh(db) && (forall s :: s in ids <==> s in r.studentIds) && (r.studentIds != [] ==> IsFamily(r.role))
    requires IsFamily(r.role) ==> center.Some?
    ensures var outcome := CreateAccount(db, User(r.role, center, true, r.email), ids);
            && (outcome.Ok? <==> (IsFamily(r.role) ==> exists s :: WillReach(db, r, center, s)))
            && (outcome.Ok? ==> AccountStored(db, outcome.value, r, center))
  {
    hide WillReach;
    var u := db.nextUser;
    var created := CreateLinks(db.(users := db.users[u := User(r.role, center, true, r.email)], nextUser := u + 1), u, ids);
    forall s: Sid ensures (u, s) in created.links <==> s in ids {}
    if IsFamily(r.role) {
      var linked := LinkStudentsByEmail(created, u, r.email, center);
      forall s: Sid ensures (u, s) in linked.links <==> WillReach(db, r, center, s) {
        ReachMeansLinks(db, r, center, ids, s);
      }
      forall l: (Uid, Sid) ensures l in linked.links <==> l in db.links || (l.0 == u && WillReach(db, r, center, l.1)) {
        assert l == (l.0, l.1);
      }
    } else {
      forall s ensures !WillReach(db, r, center, s) { StaffReachNobody(db, r, center, s); }
      assert created.links == db.links;
    }
  }

  lemma StaffReachNobody(db: Db, r: Registration, center: Option<CenterId>, s: Sid)
    requires !IsFamily(r.role)
    ensures !WillReach(db, r, center, s)
  {
  }

  lemma ReachMeansLinks(db: Db, r: Registration, center: Option<CenterId>, ids: set<Sid>, s: Sid)
    requires NumberIsFresh(db) && (forall s :: s in ids <==> s in r.studentIds) && IsFamily(r.role) && center.Some?
    ensures var u := db.nextUser;
            var created := CreateLinks(db.(users := db.users[u := User(r.role, center, true, r.email)], nextUser := u + 1), u, ids);
            (u, s) in LinkStudentsByEmail(created, u, r.email, center).links <==> WillReach(db, r, center, s)
  {
    if s in db.students {
      ListsMeans(db.students[s].emails, r.email);
    }
  }

  /** Registering goes through exactly when the actor may make such an account, its center is known, its email is
      free, and a family account reaches at least one student. It adds that one account, active, at that center,
      with exactly the links to the students it reaches. */
  lemma RegisterExactly(db: Db, actor: Uid, r: Registration)
    requires NumberIsFresh(db)
    ensures var outcome := Serve(db, actor, Register(r));
            && (outcome.Ok? <==> exists center :: RegistrationAllowed(db, actor, r, center))
            && (forall center :: outcome.Ok? && RegistrationAllowed(db, actor, r, center) ==> AccountStored(db, outcome.value, r, center))
  {
    hide CreateAccount, CenterOfNewAccount, NewAccountIsAt, AccountStored, WillReach, ParseStudentIds, IsProperList, NumberIsFresh;
    IdsMeans(r.studentIds);
    forall center | MayAsk(db, actor) && (IsFamily(r.role) || db.users[actor].role == Admin) && IsProperList(r.studentIds)
                    && (r.studentIds != [] ==> IsFamily(r.role))
      ensures CenterOfNewAccount(db, actor, r, ParseStudentIds(r.studentIds).value) == Ok(center) <==> NewAccountIsAt(db, actor, r, center)
      ensures NewAccountIsAt(db, actor, r, center) ==>
                var outcome := CreateAccount(db, User(r.role, center, true, r.email), ParseStudentIds(r.studentIds).value);
                && (outcome.Ok? <==> (IsFamily(r.role) ==> exists s :: WillReach(db, r, center, s)))
                && (outcome.Ok? ==> AccountStored(db, outcome.value, r, center))
    {
      NewCenterMeans(db, actor, r, center);
      if NewAccountIsAt(db, actor, r, center) {
        FamiliesHaveCenters(db, actor, r, center);
        CreateMeans(db, r, center, ParseStudentIds(r.studentIds).value);
      }
    }
    assert EmailTaken(db, r.email, None) <==> IsUsed(db, r.email);
    if Serve(db, actor, Register(r)).Ok? {
      var center := CenterOfNewAccount(db, actor, r, ParseStudentIds(r.studentIds).value).value;
      assert RegistrationAllowed(db, actor, r, center);
    }
  }

  lemma FamiliesHaveCenters(db: Db, actor: Uid, r: Registration, center: Option<CenterId>)
    requires actor in db.users && NewAccountIsAt(db, actor, r, center)
    ensures IsFamily(r.role) ==> center.Some?
  {
  }
}
