/** Which links a request makes, and which it must leave alone. */
module LinkRules {
  import opened Options
  import opened Centers
  import opened CentersRuns

  // A family account that belongs to this student by email, at the center of the student's teacher.
  ghost predicate MatchesByEmail(db: Db, u: Uid, s: Sid) {
    && u in db.users && s in db.students
    && Linkable(db.users[u].role)
    && db.users[u].email in EmailsOf(db.students[s].emails)
    && CenterOfStudent(db, s).Some? && db.users[u].center == CenterOfStudent(db, s)
  }

  /** Registering adds one active account and nothing else: a family's links are exactly the selected
      students and those that match it by email, all of them at its own center, and there is at least one. */
  lemma RegisterAddsOneAccount(db: Db, actor: Uid, r: Registration)
    requires Consistent(db) && IsStaff(db, actor) && RegisterUser(db, actor, r).Ok?
    ensures var after, u := RegisterUser(db, actor, r).value, db.nextUser;
            && u !in db.users && u in after.users
            && after.users == db.users[u := after.users[u]] && after.students == db.students
            && after.users[u].role == r.role && after.users[u].email == r.email && after.users[u].active
            && (forall l: (Uid, Sid) :: l.0 != u ==> (l in after.links <==> l in db.links))
            && (Linkable(r.role) ==>
                  && HasLink(after, u)
                  && (forall s :: (u, s) in after.links <==> s in r.studentIds || MatchesByEmail(after, u, s))
                  && (forall s :: (u, s) in after.links ==> CenterOfStudent(after, s) == after.users[u].center))
            && (!Linkable(r.role) ==> !HasLink(after, u))
  {
    hide Consistent;
    assert db.nextUser !in db.users && forall s :: (db.nextUser, s) !in db.links by { FreshId(db); }
    var ids := ParseStudentIds(r.studentIds).value;
    var center := CenterOfNewAccount(db, actor, r, ids).value;
    var user := User(r.role, center, true, r.email);
    var u, after := db.nextUser, RegisterUser(db, actor, r).value;
    AddUserKeeps(db, user);
    forall s | s in db.students ensures CenterOfStudent(after, s) == CenterOfStudent(db, s) {
    }
    assert forall s :: s in ids ==> CenterOfStudent(db, s) == center by { SelectedAreThere(db, actor, r); }
  }

  lemma FreshId(db: Db)
    requires Consistent(db)
    ensures db.nextUser !in db.users && forall s :: (db.nextUser, s) !in db.links
  {
  }

  lemma SelectedAreThere(db: Db, actor: Uid, r: Registration)
    requires IsStaff(db, actor) && RegisterUser(db, actor, r).Ok?
    ensures var ids := ParseStudentIds(r.studentIds).value;
            forall s :: s in ids ==> s in db.students && CenterOfStudent(db, s) == CenterOfNewAccount(db, actor, r, ids).value
  {
  }

  // No list of students is sent, and the email stays as it is.
  ghost predicate IsPlainEdit(db: Db, id: Uid, edit: Edit) {
    && edit.studentIds == None
    && id in db.users && (edit.email.Some? ==> edit.email.value == db.users[id].email)
  }

  /** A plain edit of an account that stays a family, or stays staff, changes nobody's links: links that
      were removed on purpose are not restored. */
  lemma PlainEditKeepsLinks(db: Db, actor: Uid, id: Uid, edit: Edit)
    requires IsStaff(db, actor) && UpdateUser(db, actor, id, edit).Ok? && IsPlainEdit(db, id, edit)
    requires Linkable(RoleAfter(db, id, edit)) == Linkable(db.users[id].role)
    ensures UpdateUser(db, actor, id, edit).value.links == db.links
  {
  }

  /** Leaving the family roles drops every link of the account and touches nobody else's. */
  lemma LeavingFamilyDropsLinks(db: Db, actor: Uid, id: Uid, edit: Edit)
    requires IsStaff(db, actor) && UpdateUser(db, actor, id, edit).Ok? && id in db.users
    requires Linkable(db.users[id].role) && !Linkable(RoleAfter(db, id, edit))
    requires Consistent(db)
    ensures var after := UpdateUser(db, actor, id, edit).value;
            forall l :: l in after.links <==> l in db.links && l.0 != id
  {
  }

  /** Editing a student only ever adds links, to exactly the accounts that match an email the edit
      changed, at the center of the teacher the student now has; these are active again. */
  lemma StudentEditLinksChangedEmails(db: Db, actor: Uid, s: Sid, edit: StudentEdit)
    requires Consistent(db) && IsStaff(db, actor) && UpdateStudent(db, actor, s, edit).Ok?
    ensures s in db.students
    ensures var after, changed := UpdateStudent(db, actor, s, edit).value, ChangedEmails(edit, db.students[s].emails);
            && (forall l :: l in db.links ==> l in after.links)
            && (forall l: (Uid, Sid) :: l in after.links && l !in db.links ==> l.1 == s)
            && (forall u :: (u, s) in after.links <==>
                  (u, s) in db.links || (MatchesByEmail(after, u, s) && after.users[u].email in changed))
            && (forall u :: MatchesByEmail(after, u, s) && after.users[u].email in changed ==> after.users[u].active)
            && (changed == {} ==> after.links == db.links && after.users == db.users)
  {
    var before := db.students[s];
    var next := if edit.teacher.Some? then ResolveTeacher(db, actor, edit.teacher).value else before.teacher;
    var updated := db.(students := db.students[s := EditedStudent(before, edit, next)]);
    var after := UpdateStudent(db, actor, s, edit).value;
    assert CenterOfStudent(after, s) == CenterOfStudent(updated, s);
    assert forall e :: e in ChangedEmails(edit, before.emails) ==> e in EmailsOf(after.students[s].emails);
  }
}
