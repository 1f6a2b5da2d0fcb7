/** Changing an account: exactly when it goes through, and everything it then leaves in the tables. */
module AccountEdits {
  import opened Options
  import opened Centers
  import opened CenterRequests

  // ---- what is asked for -------------------------------------------------------------------

  ghost function NewRole(existing: User, edit: Edit): Role {
    match edit.role case Some(r) => r case None => existing.role
  }

  ghost function NewEmail(existing: User, edit: Edit): Email {
    match edit.email case Some(e) => e case None => existing.email
  }

  // The students sent, if a list was sent.
  ghost predicate Selects(edit: Edit, s: Sid) {
    edit.studentIds.Some? && s in edit.studentIds.value
  }

  // Staff of the account's center, for families; only an Admin changes a role, an email or another staff account.
  ghost predicate MayEdit(db: Db, actor: Uid, id: Uid, edit: Edit) {
    && MayAsk(db, actor) && id in db.users
    && (db.users[actor].role == Teacher ==>
          && (id == actor || (IsFamily(db.users[id].role) && db.users[actor].center.Some? && db.users[id].center == db.users[actor].center))
          && NewRole(db.users[id], edit) == db.users[id].role && NewEmail(db.users[id], edit) == db.users[id].email)
    && (edit.studentIds.Some? ==>
          IsProperList(edit.studentIds.value) && (edit.studentIds.value != [] ==> IsFamily(NewRole(db.users[id], edit))))
  }

  // The center the account is at afterwards: none for an Admin; where the selected students are, or where it was,
  // for a family; an existing one an Admin chose, or where it was, for a Teacher.
  ghost predicate SettlesAt(db: Db, actor: Uid, id: Uid, edit: Edit, center: Option<CenterId>)
    requires actor in db.users && id in db.users
  {
    var existing, role, isAdmin := db.users[id], NewRole(db.users[id], edit), db.users[actor].role == Admin;
    if role == Admin then center == None
    else
      center.Some? &&
      if IsFamily(role) then
        && (edit.studentIds.Some? ==> AllAreAt(db, edit.studentIds.value, center.value))
        && if isAdmin && edit.studentIds.Some? then edit.studentIds.value != []
           else center == existing.center && (isAdmin ==> IsFamily(existing.role))
      else if edit.center.Some? && edit.center.value != existing.center then
        isAdmin && center == edit.center.value && center.value in db.centers
      else center == existing.center
  }

  ghost function SelectedSet(edit: Edit): Option<set<Sid>> {
    if edit.studentIds.Some? then Some(set s | s in edit.studentIds.value) else None
  }

  lemma RefusalMeans(db: Db, actor: Uid, id: Uid, edit: Edit)
    requires IsStaff(db, actor) && db.users[actor].active
    ensures EditRefusal(db, actor, id, edit) == None && (edit.studentIds.Some? ==> IsProperList(edit.studentIds.value))
            && (edit.studentIds.Some? && edit.studentIds.value != [] ==> IsFamily(RoleAfter(db, id, edit)))
       <==> MayEdit(db, actor, id, edit)
  {
  }

  lemma CenterMeans(db: Db, actor: Uid, id: Uid, edit: Edit, center: Option<CenterId>)
    requires IsStaff(db, actor) && MayEdit(db, actor, id, edit)
    ensures (&& CenterAfter(db, actor, id, edit, SelectedSet(edit)) == Ok(center)
             && (NewRole(db.users[id], edit) != Admin ==> center.Some?)
             && (db.users[actor].role == Teacher && edit.studentIds.Some? ==> CanAccessAll(db, actor, SelectedSet(edit).value)))
       <==> SettlesAt(db, actor, id, edit, center)
  {
    hide CenterFromStudents, CanAccessAll, IsAt;
    if edit.studentIds.Some? {
      var ids := SelectedSet(edit).value;
      if edit.studentIds.value != [] { assert edit.studentIds.value[0] in ids; }
      if center.Some? { SelectedMeans(db, ids, center.value); }
      if db.users[actor].role == Teacher {
        if db.users[actor].center.Some? { ScopeMeans(db, actor, ids); }
        assert ids == {} ==> CanAccessAll(db, actor, ids) by { NothingSelected(db, actor); }
      }
    }
  }

  lemma NothingSelected(db: Db, actor: Uid)
    requires actor in db.users && db.users[actor].role == Teacher
    ensures CanAccessAll(db, actor, {})
  {
  }

  // Once the request itself is in order, only the center and the actor's reach are left to be checked.
  lemma PlanIs(db: Db, actor: Uid, id: Uid, edit: Edit)
    requires IsStaff(db, actor) && db.users[actor].active && MayEdit(db, actor, id, edit)
    ensures var planned, center := PlanEdit(db, actor, id, edit), CenterAfter(db, actor, id, edit, SelectedSet(edit));
            && (planned.Ok? <==>
                  && center.Ok? && (NewRole(db.users[id], edit) != Admin ==> center.value.Some?)
                  && (db.users[actor].role == Teacher && edit.studentIds.Some? ==> CanAccessAll(db, actor, SelectedSet(edit).value)))
            && (planned.Ok? ==>
                  planned.value == Plan(NewRole(db.users[id], edit), NewEmail(db.users[id], edit), center.value, SelectedSet(edit)))
  {
    hide EditRefusal, CenterAfter, CanAccessAll, MayEdit, ParseStudentIds;
    RefusalMeans(db, actor, id, edit);
    EditsSomebody(db, actor, id, edit);
    if edit.studentIds.Some? {
      IdsMeans(edit.studentIds.value);
      assert IsProperList(edit.studentIds.value);
      assert forall s :: s in ParseStudentIds(edit.studentIds.value).value <==> s in edit.studentIds.value;
      assert forall s :: s in SelectedSet(edit).value <==> s in edit.studentIds.value;
      assert ParseStudentIds(edit.studentIds.value).value == SelectedSet(edit).value;
    }
    if db.users[actor].role == Teacher {
      NothingSelected(db, actor);
    }
  }

  lemma PlanMeans(db: Db, actor: Uid, id: Uid, edit: Edit)
    requires IsStaff(db, actor) && db.users[actor].active
    ensures PlanEdit(db, actor, id, edit).Ok? <==> MayEdit(db, actor, id, edit) && exists center :: SettlesAt(db, actor, id, edit, center)
    ensures forall center :: MayEdit(db, actor, id, edit) && SettlesAt(db, actor, id, edit, center) ==>
              PlanEdit(db, actor, id, edit)
              == Ok(Plan(NewRole(db.users[id], edit), NewEmail(db.users[id], edit), center, SelectedSet(edit)))
  {
    EditsSomebody(db, actor, id, edit);
    if MayEdit(db, actor, id, edit) {
      hide PlanEdit, CenterAfter, CanAccessAll, SettlesAt, MayEdit;
      PlanIs(db, actor, id, edit);
      forall center
        ensures (&& CenterAfter(db, actor, id, edit, SelectedSet(edit)) == Ok(center)
                 && (NewRole(db.users[id], edit) != Admin ==> center.Some?)
                 && (db.users[actor].role == Teacher && edit.studentIds.Some? ==> CanAccessAll(db, actor, SelectedSet(edit).value)))
           <==> SettlesAt(db, actor, id, edit, center)
      {
        CenterMeans(db, actor, id, edit, center);
      }
      if PlanEdit(db, actor, id, edit).Ok? {
        assert SettlesAt(db, actor, id, edit, PlanEdit(db, actor, id, edit).value.center);
      }
    } else {
      hide EditRefusal, CenterAfter, CanAccessAll, SettlesAt;
      RefusedPlans(db, actor, id, edit);
    }
  }

  lemma RefusedPlans(db: Db, actor: Uid, id: Uid, edit: Edit)
    requires IsStaff(db, actor) && db.users[actor].active && !MayEdit(db, actor, id, edit)
    ensures PlanEdit(db, actor, id, edit).Err?
  {
    hide EditRefusal, CenterAfter, CanAccessAll, MayEdit, ParseStudentIds;
    RefusalMeans(db, actor, id, edit);
    if edit.studentIds.Some? {
      IdsMeans(edit.studentIds.value);
    }
  }

  lemma EditsSomebody(db: Db, actor: Uid, id: Uid, edit: Edit)
    ensures MayEdit(db, actor, id, edit) ==> id in db.users && actor in db.users
  {
  }

  // ---- what it leaves -----------------------------------------------------------------------

  // The account's row: what was sent, or as it was; an account that is given a child is active again.
  ghost function NewRow(existing: User, edit: Edit, center: Option<CenterId>): User {
    User(NewRole(existing, edit), center, existing.active || (edit.studentIds.Some? && edit.studentIds.value != []), NewEmail(existing, edit))
  }

  ghost function WithRow(db: Db, id: Uid, edit: Edit, center: Option<CenterId>): Db
    requires id in db.users
  {
    db.(users := db.users[id := NewRow(db.users[id], edit, center)])
  }

  // A list that was sent replaces every link of an Admin's choice, and of a Teacher those to students of their
  // center; leaving the family roles drops them all; otherwise they stay.
  ghost predicate KeepsLink(db: Db, actor: Uid, id: Uid, edit: Edit, center: Option<CenterId>, s: Sid)
    requires actor in db.users && id in db.users
  {
    && (id, s) in db.links
    && if edit.studentIds.Some? then
         && db.users[actor].role == Teacher && db.users[actor].center.Some?
         && !IsAt(WithRow(db, id, edit, center), s, db.users[actor].center.value)
       else IsFamily(db.users[id].role) ==> IsFamily(NewRole(db.users[id], edit))
  }

  // Emails are matched only when the account became a family, or its center or its email changed.
  ghost predicate FindsByEmail(db: Db, id: Uid, edit: Edit, center: Option<CenterId>, s: Sid)
    requires id in db.users
  {
    var existing := db.users[id];
    && IsFamily(NewRole(existing, edit)) && center.Some?
    && (!IsFamily(existing.role) || center != existing.center || NewEmail(existing, edit) != existing.email)
    && IsAt(WithRow(db, id, edit, center), s, center.value) && Lists(db.students[s].emails, NewEmail(existing, edit))
  }

  ghost predicate WillBeLinked(db: Db, actor: Uid, id: Uid, edit: Edit, center: Option<CenterId>, s: Sid)
    requires actor in db.users && id in db.users
  {
    KeepsLink(db, actor, id, edit, center, s) || Selects(edit, s) || FindsByEmail(db, id, edit, center, s)
  }

  // The Teacher goes to another center and has students.
  ghost predicate LeavesClass(db: Db, id: Uid, edit: Edit, center: Option<CenterId>)
    requires id in db.users
  {
    && db.users[id].role == Teacher && NewRole(db.users[id], edit) == Teacher && center != db.users[id].center
    && exists s :: s in db.students && db.students[s].teacher == Some(id)
  }

  // A family account with a child in this Teacher's class.
  ghost predicate IsInClass(db: Db, u: Uid, t: Uid) {
    && u in db.users && IsFamily(db.users[u].role)
    && exists s: Sid :: (u, s) in db.links && s in db.students && db.students[s].teacher == Some(t)
  }

  // The class goes along if none of its families also has a child with somebody else, or is handed over to another
  // active Teacher of the center it is at; nothing is decided by default.
  ghost predicate ClassIsSettled(db: Db, id: Uid, action: StudentAction)
    requires id in db.users
  {
    match action
    case Undecided => false
    case Transfer(next) =>
      next != id && IsTeacher(db, next) && db.users[next].active && db.users[id].center.Some? && db.users[next].center == db.users[id].center
    case Move =>
      forall u: Uid, s: Sid :: IsInClass(db, u, id) && (u, s) in db.links ==> s in db.students && db.students[s].teacher == Some(id)
  }

  ghost predicate EditAllowed(db: Db, actor: Uid, id: Uid, edit: Edit, center: Option<CenterId>) {
    && MayEdit(db, actor, id, edit) && SettlesAt(db, actor, id, edit, center)
    && (forall u :: u in db.users && u != id ==> db.users[u].email != NewEmail(db.users[id], edit))
    && (forall s :: Selects(edit, s) ==> s in db.students)
    && (LeavesClass(db, id, edit, center) ==> ClassIsSettled(db, id, edit.studentAction))
    && (IsFamily(NewRole(db.users[id], edit)) ==>
          && (exists s :: WillBeLinked(db, actor, id, edit, center, s))
          && (center != db.users[id].center ==>
                forall s :: WillBeLinked(db, actor, id, edit, center, s) ==>
                  center.Some? && IsAt(WithRow(db, id, edit, center), s, center.value)))
  }

  ghost predicate EditStored(db: Db, after: Db, actor: Uid, id: Uid, edit: Edit, center: Option<CenterId>)
    requires actor in db.users && id in db.users
  {
    var leaves := LeavesClass(db, id, edit, center);
    && after.users.Keys == db.users.Keys && after.students.Keys == db.students.Keys
    && after.users[id] == NewRow(db.users[id], edit, center)
    && (forall u :: u in db.users && u != id ==>
          after.users[u] == if leaves && edit.studentAction.Move? && IsInClass(db, u, id) then db.users[u].(center := center) else db.users[u])
    && (forall s :: s in db.students ==>
          after.students[s] == if leaves && edit.studentAction.Transfer? && db.students[s].teacher == Some(id)
                               then db.students[s].(teacher := Some(edit.studentAction.to)) else db.students[s])
    && (forall l: (Uid, Sid) :: l.0 != id ==> (l in after.links <==> l in db.links))
    && (forall s: Sid :: (id, s) in after.links <==> WillBeLinked(db, actor, id, edit, center, s))
    && after == db.(users := after.users, students := after.students, links := after.links)
  }

  // ---- the transaction, piece by piece -------------------------------------------------------

  ghost function PlanFor(db: Db, id: Uid, edit: Edit, center: Option<CenterId>): Plan
    requires id in db.users
  {
    Plan(NewRole(db.users[id], edit), NewEmail(db.users[id], edit), center, SelectedSet(edit))
  }

  ghost predicate LinkedSoFar(db: Db, linked: Db, actor: Uid, id: Uid, edit: Edit, center: Option<CenterId>)
    requires actor in db.users && id in db.users
  {
    && linked == WithRow(db, id, edit, center).(links := linked.links)
    && (forall l: (Uid, Sid) :: l.0 != id ==> (l in linked.links <==> l in db.links))
    && (forall s: Sid :: (id, s) in linked.links <==> KeepsLink(db, actor, id, edit, center, s) || Selects(edit, s))
  }

  lemma TeachersHaveCenters(db: Db, actor: Uid, id: Uid, edit: Edit, center: Option<CenterId>)
    requires IsStaff(db, actor) && MayEdit(db, actor, id, edit) && SettlesAt(db, actor, id, edit, center)
    ensures db.users[actor].role == Teacher ==> db.users[actor].center.Some?
  {
  }

  lemma DropMeans(db: Db, actor: Uid, id: Uid, edit: Edit, center: Option<CenterId>, saved: Db)
    requires IsStaff(db, actor) && id in db.users && (db.users[actor].role == Teacher ==> db.users[actor].center.Some?)
    requires edit.studentIds.Some? && saved.students == db.students && saved.links == db.links
    requires forall s: Sid, c: CenterId :: IsAt(saved, s, c) <==> IsAt(WithRow(db, id, edit, center), s, c)
    ensures var dropped := DropLinks(saved, db.users[actor], actor, id);
            && dropped == saved.(links := dropped.links)
            && (forall l: (Uid, Sid) :: l.0 != id ==> (l in dropped.links <==> l in db.links))
            && (forall s: Sid :: (id, s) in dropped.links <==> KeepsLink(db, actor, id, edit, center, s))
  {
    if db.users[actor].role == Teacher {
      forall s: Sid ensures InScope(saved, Teacher, db.users[actor].center, actor, s) <==> IsAt(saved, s, db.users[actor].center.value) {
        AtMeans(saved, s, db.users[actor].center.value);
      }
    }
  }

  ghost function Saved(db: Db, id: Uid, edit: Edit, center: Option<CenterId>): Db
    requires id in db.users
  {
    db.(users := db.users[id := db.users[id].(role := NewRole(db.users[id], edit), email := NewEmail(db.users[id], edit), center := center)])
  }

  lemma LinksMean(db: Db, actor: Uid, id: Uid, edit: Edit, center: Option<CenterId>)
    requires IsStaff(db, actor) && MayEdit(db, actor, id, edit) && SettlesAt(db, actor, id, edit, center)
    ensures var linked := EditLinks(db, actor, id, PlanFor(db, id, edit, center));
            && (linked.Ok? <==> forall s :: Selects(edit, s) ==> s in db.students)
            && (linked.Ok? ==> LinkedSoFar(db, linked.value, actor, id, edit, center))
  {
    TeachersHaveCenters(db, actor, id, edit, center);
    hide SettlesAt, MayEdit, KeepsLink, DropLinks;
    var saved := Saved(db, id, edit, center);
    if edit.studentIds.Some? {
      var ids := SelectedSet(edit).value;
      assert ids == {} <==> edit.studentIds.value == [] by {
        if edit.studentIds.value != [] { assert edit.studentIds.value[0] in ids; }
      }
      DropMeans(db, actor, id, edit, center, saved);
    } else {
      KeptLinks(db, actor, id, edit, center);
    }
  }

  lemma KeptLinks(db: Db, actor: Uid, id: Uid, edit: Edit, center: Option<CenterId>)
    requires actor in db.users && id in db.users && edit.studentIds == None
    ensures forall s: Sid :: KeepsLink(db, actor, id, edit, center, s)
              <==> (id, s) in db.links && (IsFamily(db.users[id].role) ==> IsFamily(NewRole(db.users[id], edit)))
  {
  }

  // The class and its families after the handover; links are not touched by it.
  ghost predicate ClassStored(db: Db, linked: Db, after: Db, id: Uid, edit: Edit, center: Option<CenterId>)
    requires id in db.users
  {
    var leaves := LeavesClass(db, id, edit, center);
    && after.users.Keys == linked.users.Keys == db.users.Keys && after.students.Keys == db.students.Keys
    && after.users[id] == linked.users[id]
    && (forall u :: u in db.users && u != id ==>
          after.users[u] == if leaves && edit.studentAction.Move? && IsInClass(db, u, id) then db.users[u].(center := center) else db.users[u])
    && (forall s :: s in db.students ==>
          after.students[s] == if leaves && edit.studentAction.Transfer? && db.students[s].teacher == Some(id)
                               then db.students[s].(teacher := Some(edit.studentAction.to)) else db.students[s])
    && after == linked.(users := after.users, students := after.students)
  }

  lemma ClassMeans(db: Db, linked: Db, actor: Uid, id: Uid, edit: Edit, center: Option<CenterId>)
    requires actor in db.users && id in db.users && LinkedSoFar(db, linked, actor, id, edit, center)
    ensures var moved := EditStudents(db, linked, id, PlanFor(db, id, edit, center), edit.studentAction);
            && (moved.Ok? <==> (LeavesClass(db, id, edit, center) ==> ClassIsSettled(db, id, edit.studentAction)))
            && (moved.Ok? ==> ClassStored(db, linked, moved.value, id, edit, center))
  {
    hide LinkedSoFar, IsInClass, ResolveStudentsOfMovedTeacher, ClassIsSettled, ClassStored;
    LinkedFacts(db, linked, actor, id, edit, center);
    if LeavesClass(db, id, edit, center) {
      HandoverMeans(db, linked, actor, id, edit, center);
    } else {
      StayMeans(db, linked, actor, id, edit, center);
    }
  }

  lemma LinkedFacts(db: Db, linked: Db, actor: Uid, id: Uid, edit: Edit, center: Option<CenterId>)
    requires actor in db.users && id in db.users && LinkedSoFar(db, linked, actor, id, edit, center)
    ensures linked.students == db.students && linked.users == db.users[id := NewRow(db.users[id], edit, center)]
    ensures forall u: Uid, s: Sid :: u != id ==> ((u, s) in linked.links <==> (u, s) in db.links)
  {
  }

  lemma StayMeans(db: Db, linked: Db, actor: Uid, id: Uid, edit: Edit, center: Option<CenterId>)
    requires actor in db.users && id in db.users && LinkedSoFar(db, linked, actor, id, edit, center)
    requires !LeavesClass(db, id, edit, center)
    ensures EditStudents(db, linked, id, PlanFor(db, id, edit, center), edit.studentAction) == Ok(linked)
    ensures ClassStored(db, linked, linked, id, edit, center)
  {
    hide KeepsLink;
  }

  lemma ClassFamilies(db: Db, linked: Db, actor: Uid, id: Uid, edit: Edit, center: Option<CenterId>)
    requires actor in db.users && id in db.users && LinkedSoFar(db, linked, actor, id, edit, center)
    requires LeavesClass(db, id, edit, center)
    ensures forall u :: u in FamiliesOf(linked, id) <==> IsInClass(db, u, id)
    ensures (exists l :: l in linked.links && l.0 in FamiliesOf(linked, id) && !TaughtBy(linked, l.1, id))
       <==> !ClassIsSettled(db, id, Move)
  {
    LinkedFacts(db, linked, actor, id, edit, center);
    hide LinkedSoFar;
    forall u ensures u in FamiliesOf(linked, id) <==> IsInClass(db, u, id) {
      if u != id {
        if s: Sid :| (u, s) in db.links && s in db.students && db.students[s].teacher == Some(id) {
          assert (u, s) in linked.links && TaughtBy(linked, s, id);
        }
      }
    }
    hide FamiliesOf, IsInClass;
    assert !IsInClass(db, id, id) by { TeachersAreNoFamily(db, id, edit, center); }
    forall u: Uid, s: Sid | IsInClass(db, u, id) && (u, s) in db.links && !TaughtBy(db, s, id)
      ensures exists l :: l in linked.links && l.0 in FamiliesOf(linked, id) && !TaughtBy(linked, l.1, id)
    {
      var l := (u, s);
      assert l in linked.links && l.0 in FamiliesOf(linked, id) && !TaughtBy(linked, l.1, id);
    }
    forall l | l in linked.links && l.0 in FamiliesOf(linked, id) && !TaughtBy(linked, l.1, id)
      ensures IsInClass(db, l.0, id) && (l.0, l.1) in db.links && !TaughtBy(db, l.1, id)
    {
      assert l == (l.0, l.1);
    }
  }

  lemma TeachersAreNoFamily(db: Db, id: Uid, edit: Edit, center: Option<CenterId>)
    requires id in db.users && LeavesClass(db, id, edit, center)
    ensures !IsInClass(db, id, id)
  {
  }

  lemma HandoverMeans(db: Db, linked: Db, actor: Uid, id: Uid, edit: Edit, center: Option<CenterId>)
    requires actor in db.users && id in db.users && LinkedSoFar(db, linked, actor, id, edit, center)
    requires LeavesClass(db, id, edit, center)
    ensures var moved := EditStudents(db, linked, id, PlanFor(db, id, edit, center), edit.studentAction);
            && (moved.Ok? <==> ClassIsSettled(db, id, edit.studentAction))
            && (moved.Ok? ==> ClassStored(db, linked, moved.value, id, edit, center))
  {
    LinkedFacts(db, linked, actor, id, edit, center);
    ClassFamilies(db, linked, actor, id, edit, center);
    hide LinkedSoFar, IsInClass, FamiliesOf;
    assert Teaches(linked, id);
  }

  // A family's account at last: every link it will have is there, it has one, and after a move none leads elsewhere.
  lemma FamilyMeans(db: Db, linked: Db, actor: Uid, id: Uid, edit: Edit, center: Option<CenterId>)
    requires actor in db.users && id in db.users && LinkedSoFar(db, linked, actor, id, edit, center)
    requires IsFamily(NewRole(db.users[id], edit)) && center.Some?
    ensures var final := EditFamily(db, linked, id, PlanFor(db, id, edit, center));
            && (final.Ok? <==>
                  && (exists s :: WillBeLinked(db, actor, id, edit, center, s))
                  && (center != db.users[id].center ==>
                        forall s :: WillBeLinked(db, actor, id, edit, center, s) ==> IsAt(WithRow(db, id, edit, center), s, center.value)))
            && (final.Ok? ==> EditStored(db, final.value, actor, id, edit, center))
  {
    hide KeepsLink;
    LinkedFacts(db, linked, actor, id, edit, center);
    var existing := db.users[id];
    var email := NewEmail(existing, edit);
    var found := if !IsFamily(existing.role) || center != existing.center || email != existing.email
                 then LinkStudentsByEmail(linked, id, email, center) else linked;
    FoundMeans(db, linked, actor, id, edit, center);
    assert found == linked.(links := found.links);
    assert HasLink(found, id) <==> exists s :: WillBeLinked(db, actor, id, edit, center, s);
    forall s ensures CenterOfStudent(found, s) == center <==> IsAt(WithRow(db, id, edit, center), s, center.value) {
      AtMeans(found, s, center.value);
    }
    LinksInCenterMeans(found, id, center);
  }

  lemma LinksInCenterMeans(db: Db, id: Uid, center: Option<CenterId>)
    ensures LinksInCenter(db, id, center) <==> forall s: Sid :: (id, s) in db.links ==> CenterOfStudent(db, s) == center
  {
    hide CenterOfStudent;
    forall s: Sid | LinksInCenter(db, id, center) && (id, s) in db.links ensures CenterOfStudent(db, s) == center {
      var l := (id, s);
      assert l in db.links && l.0 == id;
    }
  }

  lemma FoundMeans(db: Db, linked: Db, actor: Uid, id: Uid, edit: Edit, center: Option<CenterId>)
    requires actor in db.users && id in db.users && LinkedSoFar(db, linked, actor, id, edit, center)
    requires IsFamily(NewRole(db.users[id], edit)) && center.Some?
    ensures var existing, email := db.users[id], NewEmail(db.users[id], edit);
            var found := if !IsFamily(existing.role) || center != existing.center || email != existing.email
                         then LinkStudentsByEmail(linked, id, email, center) else linked;
            && found == linked.(links := found.links)
            && (forall l: (Uid, Sid) :: l.0 != id ==> (l in found.links <==> l in db.links))
            && (forall s: Sid :: (id, s) in found.links <==> WillBeLinked(db, actor, id, edit, center, s))
  {
    hide KeepsLink;
    var email, row := NewEmail(db.users[id], edit), WithRow(db, id, edit, center);
    forall s | s in db.students
      ensures email in EmailsOf(db.students[s].emails) && CenterOfStudent(linked, s) == center
         <==> Lists(db.students[s].emails, email) && IsAt(row, s, center.value)
    {
      ListsMeans(db.students[s].emails, email);
      AtMeans(linked, s, center.value);
    }
  }

  lemma StaffMeans(db: Db, linked: Db, after: Db, actor: Uid, id: Uid, edit: Edit, center: Option<CenterId>)
    requires actor in db.users && id in db.users && LinkedSoFar(db, linked, actor, id, edit, center)
    requires ClassStored(db, linked, after, id, edit, center) && !IsFamily(NewRole(db.users[id], edit))
    requires edit.studentIds.Some? ==> edit.studentIds.value == []
    ensures EditStored(db, after, actor, id, edit, center)
  {
    hide KeepsLink, IsInClass;
  }

  lemma FamiliesLeaveNoClass(db: Db, id: Uid, edit: Edit, center: Option<CenterId>)
    requires id in db.users && IsFamily(NewRole(db.users[id], edit))
    ensures !LeavesClass(db, id, edit, center)
  {
  }

  lemma EditMeans(db: Db, actor: Uid, id: Uid, edit: Edit, center: Option<CenterId>)
    requires IsStaff(db, actor) && db.users[actor].active && MayEdit(db, actor, id, edit) && SettlesAt(db, actor, id, edit, center)
    ensures var outcome := ApplyEdit(db, actor, id, PlanFor(db, id, edit, center), edit.studentAction);
            && (outcome.Ok? <==> EditAllowed(db, actor, id, edit, center))
            && (outcome.Ok? ==> EditStored(db, outcome.value, actor, id, edit, center))
  {
    CentersAreKnown(db, actor, id, edit, center);
    hide MayEdit, SettlesAt, EditLinks, EditStudents, EditFamily, LinkedSoFar, ClassStored, EditStored, LeavesClass, ClassIsSettled, WillBeLinked;
    var plan := PlanFor(db, id, edit, center);
    LinksMean(db, actor, id, edit, center);
    var linked := EditLinks(db, actor, id, plan);
    if linked.Ok? {
      LinkedFacts(db, linked.value, actor, id, edit, center);
      ClassMeans(db, linked.value, actor, id, edit, center);
      var moved := EditStudents(db, linked.value, id, plan, edit.studentAction);
      if moved.Ok? {
        if IsFamily(NewRole(db.users[id], edit)) {
          FamiliesLeaveNoClass(db, id, edit, center);
          StayMeans(db, linked.value, actor, id, edit, center);
          FamilyMeans(db, linked.value, actor, id, edit, center);
        } else {
          StaffMeans(db, linked.value, moved.value, actor, id, edit, center);
          StaffEndsHere(db, moved.value, id, plan);
        }
      }
    }
  }

  lemma StaffEndsHere(before: Db, db: Db, id: Uid, plan: Plan)
    requires id in before.users && !IsFamily(plan.role)
    ensures EditFamily(before, db, id, plan) == Ok(db)
  {
  }

  lemma CentersAreKnown(db: Db, actor: Uid, id: Uid, edit: Edit, center: Option<CenterId>)
    requires actor in db.users && MayEdit(db, actor, id, edit) && SettlesAt(db, actor, id, edit, center)
    ensures IsFamily(NewRole(db.users[id], edit)) ==> center.Some?
    ensures !IsFamily(NewRole(db.users[id], edit)) && edit.studentIds.Some? ==> edit.studentIds.value == []
  {
  }

  /** Changing an account goes through exactly when the actor may ask for it, the account's center is settled, its
      email stays its own, the selected students exist, a Teacher's class is not left undecided, and a family
      reaches somebody, and nobody elsewhere after a move. Then the account holds what was sent and keeps the
      rest, its links are exactly those kept, selected and found, the class and its families are where the actor
      put them, and nothing else in the tables changes. */
  lemma ChangeUserExactly(db: Db, actor: Uid, id: Uid, edit: Edit)
    ensures var outcome := Serve(db, actor, ChangeUser(id, edit));
            && (outcome.Ok? <==> exists center :: EditAllowed(db, actor, id, edit, center))
            && (outcome.Ok? ==> actor in db.users && id in db.users)
            && (forall center :: outcome.Ok? && EditAllowed(db, actor, id, edit, center) ==>
                  EditStored(db, outcome.value, actor, id, edit, center))
  {
    hide EditAllowed, EditStored, MayEdit, SettlesAt, PlanEdit, ApplyEdit;
    AllowedMeans(db, actor, id, edit);
    EditsSomebody(db, actor, id, edit);
    if IsStaff(db, actor) && db.users[actor].active && MayEdit(db, actor, id, edit) {
      PlanMeans(db, actor, id, edit);
      forall center | SettlesAt(db, actor, id, edit, center)
        ensures var outcome := ApplyEdit(db, actor, id, PlanFor(db, id, edit, center), edit.studentAction);
                && (outcome.Ok? <==> EditAllowed(db, actor, id, edit, center))
                && (outcome.Ok? ==> EditStored(db, outcome.value, actor, id, edit, center))
      {
        EditMeans(db, actor, id, edit, center);
      }
    } else if IsStaff(db, actor) && db.users[actor].active {
      PlanMeans(db, actor, id, edit);
    }
  }

  lemma AllowedMeans(db: Db, actor: Uid, id: Uid, edit: Edit)
    ensures MayEdit(db, actor, id, edit) ==> MayAsk(db, actor)
    ensures forall center :: EditAllowed(db, actor, id, edit, center) ==> MayEdit(db, actor, id, edit) && SettlesAt(db, actor, id, edit, center)
  {
  }

  /** A Teacher cannot find out which families other centers have: changing or deleting one of their accounts is
      answered exactly like an account that does not exist. */
  lemma ElsewhereLooksMissing(db: Db, actor: Uid, id: Uid, missing: Uid, edit: Edit)
    requires MayAsk(db, actor) && db.users[actor].role == Teacher && db.users[actor].center.Some?
    requires id in db.users && IsFamily(db.users[id].role) && db.users[id].center != db.users[actor].center
    requires missing !in db.users
    ensures Serve(db, actor, ChangeUser(id, edit)) == Serve(db, actor, ChangeUser(missing, edit)) == Err(NotFound)
    ensures Serve(db, actor, RemoveUser(id)) == Serve(db, actor, RemoveUser(missing)) == Err(NotFound)
  {
    hide CenterAfter, ApplyEdit, ParseStudentIds;
  }
}
