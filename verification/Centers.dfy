/** Accounts, students and the links between families and their children: every request that writes
    them, as one transaction that either goes through or leaves the tables as they were. */
module Centers {
  import opened Options

  type Uid = int
  type Sid = int
  type CenterId = int
  type Email = string

  datatype Role = Teacher | Parent | Guardian | Admin

  datatype User = User(role: Role, center: Option<CenterId>, active: bool, email: Email)

  datatype Emails = Emails(mother: Option<Email>, father: Option<Email>, guardian: Option<Email>)

  // `who`: the name and birthday, as an import compares them.
  datatype Student = Student(teacher: Option<Uid>, emails: Emails, who: string)

  datatype Db = Db(
    users: map<Uid, User>,
    students: map<Sid, Student>,
    links: set<(Uid, Sid)>,
    centers: set<CenterId>,
    nextUser: Uid,
    nextStudent: Sid)

  datatype Refusal = Unauthorized | Forbidden | NotFound | BadRequest | Conflict

  predicate Linkable(role: Role) {
    role == Parent || role == Guardian
  }

  function CenterOfStudent(db: Db, s: Sid): Option<CenterId> {
    if s in db.students && db.students[s].teacher.Some? && db.students[s].teacher.value in db.users
    then db.users[db.students[s].teacher.value].center else None
  }

  function EmailsOf(e: Emails): set<Email> {
    (if e.mother.Some? then {e.mother.value} else {})
    + (if e.father.Some? then {e.father.value} else {})
    + (if e.guardian.Some? then {e.guardian.value} else {})
  }

  ghost predicate HasLink(db: Db, u: Uid) {
    exists s :: (u, s) in db.links
  }

  ghost predicate Teaches(db: Db, t: Uid) {
    exists s :: s in db.students && db.students[s].teacher == Some(t)
  }

  // ---- who may touch what -------------------------------------------------------

  predicate IsStaff(db: Db, actor: Uid) {
    actor in db.users && (db.users[actor].role == Teacher || db.users[actor].role == Admin)
  }

  // The students a staff member works with: an Admin's are all, a Teacher's are those of their center.
  predicate InScope(db: Db, role: Role, center: Option<CenterId>, actor: Uid, s: Sid) {
    && s in db.students
    && (role != Admin ==>
          if center.Some? then CenterOfStudent(db, s) == center else db.students[s].teacher == Some(actor))
  }

  predicate CanAccess(db: Db, actor: Uid, s: Sid)
    requires actor in db.users
  {
    || db.users[actor].role == Admin
    || (&& db.users[actor].role == Teacher && s in db.students
        && (|| db.students[s].teacher == Some(actor)
            || (db.users[actor].center.Some? && CenterOfStudent(db, s) == db.users[actor].center)))
  }

  predicate CanAccessAll(db: Db, actor: Uid, ids: set<Sid>)
    requires actor in db.users
  {
    var a := db.users[actor];
    a.role == Admin || (a.role == Teacher && forall s :: s in ids ==> InScope(db, a.role, a.center, actor, s))
  }

  predicate EmailTaken(db: Db, email: Email, except: Option<Uid>) {
    exists u :: u in db.users && Some(u) != except && db.users[u].email == email
  }

  const MAX_STUDENT_IDS := 100

  function ParseStudentIds(raw: seq<int>): Result<set<Sid>, Refusal> {
    if |raw| > MAX_STUDENT_IDS || exists k :: 0 <= k < |raw| && raw[k] <= 0 then Err(BadRequest)
    else Ok(set id | id in raw)
  }

  // ---- links ----------------------------------------------------------------------

  ghost function CreateLinks(db: Db, u: Uid, ids: set<Sid>): Db {
    db.(links := db.links + set s | s in ids :: (u, s))
  }

  ghost function LinkStudentsByEmail(db: Db, u: Uid, email: Email, center: Option<CenterId>): Db {
    if center == None then db
    else CreateLinks(db, u, set s | s in db.students && email in EmailsOf(db.students[s].emails) && CenterOfStudent(db, s) == center)
  }

  function Activate(users: map<Uid, User>, ids: set<Uid>): map<Uid, User> {
    map u | u in users :: if u in ids then users[u].(active := true) else users[u]
  }

  function MatchingAccounts(db: Db, emails: set<Email>, center: Option<CenterId>): set<Uid> {
    set u | u in db.users && Linkable(db.users[u].role) && db.users[u].email in emails && db.users[u].center == center
  }

  ghost function LinkAccountsByEmail(db: Db, s: Sid, emails: set<Email>): Db {
    var center := CenterOfStudent(db, s);
    if center == None then db
    else
      var accounts := MatchingAccounts(db, emails, center);
      db.(links := db.links + (set u | u in accounts :: (u, s)), users := Activate(db.users, accounts))
  }

  ghost predicate AllAt(db: Db, ids: set<Sid>, center: CenterId) {
    forall s :: s in ids ==> CenterOfStudent(db, s) == Some(center)
  }

  ghost function AnyOf(ids: set<Sid>): (s: Sid)
    requires ids != {}
    ensures s in ids
  {
    SomeIn(ids);
    var s :| s in ids; s
  }

  lemma SomeIn(ids: set<Sid>)
    requires ids != {}
    ensures exists s :: s in ids
  {
    if forall s :: s !in ids {
      assert false;
    }
  }

  // The one center of the selected students, through their teachers.
  ghost function CenterFromStudents(db: Db, ids: set<Sid>): (r: Result<CenterId, Refusal>)
    ensures r.Ok? ==> ids != {} && AllAt(db, ids, r.value)
    ensures r.Err? ==> r.error == BadRequest && (ids == {} || forall c :: !AllAt(db, ids, c))
  {
    if ids == {} then Err(BadRequest)
    else
      var s := AnyOf(ids);
      if exists t :: t in ids && CenterOfStudent(db, t) == None then Err(BadRequest)  // gone, or no teacher at a center yet
      else if exists t :: t in ids && CenterOfStudent(db, t) != CenterOfStudent(db, s) then Err(BadRequest)
      else Ok(CenterOfStudent(db, s).value)
  }

  // ---- registering an account ---------------------------------------------------------

  datatype Registration = Registration(role: Role, email: Email, center: Option<CenterId>, studentIds: seq<int>)

  ghost function CenterOfNewAccount(db: Db, actor: Uid, r: Registration, ids: set<Sid>): Result<Option<CenterId>, Refusal>
    requires actor in db.users
  {
    if db.users[actor].role == Teacher then
      if db.users[actor].center == None || !CanAccessAll(db, actor, ids) then Err(Forbidden)
      else Ok(db.users[actor].center)
    else if Linkable(r.role) then
      match CenterFromStudents(db, ids) case Ok(c) => Ok(Some(c)) case Err(e) => Err(e)
    else if r.role != Admin then
      if r.center.Some? && r.center.value in db.centers then Ok(r.center) else Err(BadRequest)
    else Ok(None)
  }

  ghost function RegisterUser(db: Db, actor: Uid, r: Registration): Result<Db, Refusal>
    requires IsStaff(db, actor)
  {
    if !Linkable(r.role) && db.users[actor].role != Admin then Err(Forbidden)
    else
      var parsed := ParseStudentIds(r.studentIds);
      if parsed.Err? then Err(parsed.error)
      else if parsed.value != {} && !Linkable(r.role) then Err(BadRequest)
      else
        var center := CenterOfNewAccount(db, actor, r, parsed.value);
        if center.Err? then Err(center.error)
        else if EmailTaken(db, r.email, None) then Err(Conflict)
        else CreateAccount(db, User(r.role, center.value, true, r.email), parsed.value)
  }

  ghost function CreateAccount(db: Db, user: User, ids: set<Sid>): Result<Db, Refusal> {
    var u := db.nextUser;
    var created := CreateLinks(db.(users := db.users[u := user], nextUser := u + 1), u, ids);
    if !Linkable(user.role) then Ok(created)
    else
      var linked := LinkStudentsByEmail(created, u, user.email, user.center);
      if HasLink(linked, u) then Ok(linked) else Err(BadRequest)
  }

  // ---- changing an account --------------------------------------------------------------

  datatype StudentAction = Undecided | Move | Transfer(to: Uid)

  // Absent fields are None; a center sent as null is Some(None).
  datatype Edit = Edit(role: Option<Role>, email: Option<Email>, center: Option<Option<CenterId>>,
                       studentIds: Option<seq<int>>, studentAction: StudentAction)

  datatype Plan = Plan(role: Role, email: Email, center: Option<CenterId>, ids: Option<set<Sid>>)

  function RoleAfter(db: Db, id: Uid, edit: Edit): Role
    requires id in db.users
  {
    if edit.role.Some? then edit.role.value else db.users[id].role
  }

  function EditRefusal(db: Db, actor: Uid, id: Uid, edit: Edit): Option<Refusal>
    requires actor in db.users
  {
    var me := db.users[actor];
    if id !in db.users then Some(NotFound)
    else
      var existing, role := db.users[id], RoleAfter(db, id, edit);
      if me.role == Teacher && id != actor && !Linkable(existing.role) then Some(Forbidden)
      else if me.role == Teacher && id != actor && me.center == None then Some(Forbidden)
      else if me.role == Teacher && id != actor && existing.center != me.center then Some(NotFound)
      else if me.role != Admin && (existing.role == Admin || role == Admin) then Some(Forbidden)
      else if me.role != Admin && role != existing.role then Some(Forbidden)
      else if me.role != Admin && edit.email.Some? && edit.email.value != existing.email then Some(Forbidden)
      else None
  }

  ghost function CenterAfter(db: Db, actor: Uid, id: Uid, edit: Edit, ids: Option<set<Sid>>): Result<Option<CenterId>, Refusal>
    requires actor in db.users && id in db.users
  {
    var existing, role := db.users[id], RoleAfter(db, id, edit);
    if role == Admin then Ok(None)
    else if Linkable(role) then
      if db.users[actor].role != Admin then Ok(existing.center)
      else if ids.Some? then match CenterFromStudents(db, ids.value) case Ok(c) => Ok(Some(c)) case Err(e) => Err(e)
      else if !Linkable(existing.role) then Err(BadRequest)
      else Ok(existing.center)
    else if edit.center.Some? && edit.center.value != existing.center then
      if db.users[actor].role != Admin then Err(Forbidden)
      else if edit.center.value.Some? && edit.center.value.value in db.centers then Ok(edit.center.value)
      else Err(BadRequest)
    else Ok(existing.center)
  }

  // Every check before the transaction.
  ghost function PlanEdit(db: Db, actor: Uid, id: Uid, edit: Edit): Result<Plan, Refusal>
    requires actor in db.users
    ensures PlanEdit(db, actor, id, edit).Ok? ==> id in db.users
  {
    var refusal := EditRefusal(db, actor, id, edit);
    if refusal.Some? then Err(refusal.value)
    else
      var role := RoleAfter(db, id, edit);
      var parsed := if edit.studentIds.Some? then ParseStudentIds(edit.studentIds.value) else Ok({});
      if parsed.Err? then Err(parsed.error)
      else if parsed.value != {} && !Linkable(role) then Err(BadRequest)
      else
        var ids := if edit.studentIds.Some? then Some(parsed.value) else None;
        var center := CenterAfter(db, actor, id, edit, ids);
        if center.Err? then Err(center.error)
        else if role != Admin && center.value == None then Err(BadRequest)
        else if db.users[actor].role == Teacher && !CanAccessAll(db, actor, parsed.value) then Err(Forbidden)
        else Ok(Plan(role, if edit.email.Some? then edit.email.value else db.users[id].email, center.value, ids))
  }

  ghost function ResolveStudentsOfMovedTeacher(db: Db, t: Uid, from': Option<CenterId>, to: Option<CenterId>, action: StudentAction)
    : Result<Db, Refusal>
  {
    if !Teaches(db, t) then Ok(db)
    else
      match action
      case Undecided => Err(BadRequest)
      case Transfer(next) =>
        if next == t || next !in db.users || db.users[next].role != Teacher || !db.users[next].active
           || from' == None || db.users[next].center != from' then Err(BadRequest)
        else Ok(db.(students := Reassign(db.students, t, next)))
      case Move =>
        var families := FamiliesOf(db, t);
        if exists l :: l in db.links && l.0 in families && !TaughtBy(db, l.1, t) then Err(BadRequest)
        else Ok(db.(users := Resettle(db.users, families, to)))
  }

  predicate TaughtBy(db: Db, s: Sid, t: Uid) {
    s in db.students && db.students[s].teacher == Some(t)
  }

  ghost function FamiliesOf(db: Db, t: Uid): set<Uid> {
    set u | u in db.users && Linkable(db.users[u].role) && exists s :: (u, s) in db.links && TaughtBy(db, s, t)
  }

  function Reassign(students: map<Sid, Student>, t: Uid, next: Uid): map<Sid, Student> {
    map s | s in students :: if students[s].teacher == Some(t) then students[s].(teacher := Some(next)) else students[s]
  }

  function Resettle(users: map<Uid, User>, ids: set<Uid>, center: Option<CenterId>): map<Uid, User> {
    map u | u in users :: if u in ids then users[u].(center := center) else users[u]
  }

  // The links a Teacher's list replaces are those to students of their scope; an Admin's, all.
  function DropLinks(db: Db, me: User, actor: Uid, id: Uid): Db {
    db.(links := set l | l in db.links && !(l.0 == id && (me.role == Admin || InScope(db, me.role, me.center, actor, l.1))))
  }

  function DropAllLinks(db: Db, id: Uid): Db {
    db.(links := set l | l in db.links && l.0 != id)
  }

  ghost function Relink(db: Db, me: User, actor: Uid, id: Uid, ids: set<Sid>): Result<Db, Refusal>
    requires id in db.users
  {
    var dropped := DropLinks(db, me, actor, id);
    if ids == {} then Ok(dropped)
    else if !(ids <= db.students.Keys) then Err(BadRequest)
    else
      var linked := CreateLinks(dropped, id, ids);
      Ok(linked.(users := linked.users[id := linked.users[id].(active := true)]))
  }

  ghost predicate LinksInCenter(db: Db, id: Uid, center: Option<CenterId>) {
    forall l :: l in db.links && l.0 == id ==> CenterOfStudent(db, l.1) == center
  }

  // The links of the edited account, before anything is matched by email.
  ghost function EditLinks(db: Db, actor: Uid, id: Uid, plan: Plan): Result<Db, Refusal>
    requires actor in db.users && id in db.users
  {
    var existing := db.users[id];
    var saved := db.(users := db.users[id := existing.(role := plan.role, email := plan.email, center := plan.center)]);
    if plan.ids.Some? then Relink(saved, db.users[actor], actor, id, plan.ids.value)
    else if Linkable(existing.role) && !Linkable(plan.role) then Ok(DropAllLinks(saved, id))
    else Ok(saved)
  }

  ghost function EditStudents(before: Db, db: Db, id: Uid, plan: Plan, action: StudentAction): Result<Db, Refusal>
    requires id in before.users
  {
    var existing := before.users[id];
    if plan.center != existing.center && existing.role == Teacher && plan.role == Teacher
    then ResolveStudentsOfMovedTeacher(db, id, existing.center, plan.center, action)
    else Ok(db)
  }

  ghost function EditFamily(before: Db, db: Db, id: Uid, plan: Plan): Result<Db, Refusal>
    requires id in before.users
  {
    var existing := before.users[id];
    if !Linkable(plan.role) then Ok(db)
    else
      var linked := if !Linkable(existing.role) || plan.center != existing.center || plan.email != existing.email
                    then LinkStudentsByEmail(db, id, plan.email, plan.center) else db;
      if plan.center != existing.center && !LinksInCenter(linked, id, plan.center) then Err(BadRequest)
      else if !HasLink(linked, id) then Err(BadRequest)
      else Ok(linked)
  }

  // The transaction.
  ghost function ApplyEdit(db: Db, actor: Uid, id: Uid, plan: Plan, action: StudentAction): Result<Db, Refusal>
    requires actor in db.users && id in db.users
  {
    if EmailTaken(db, plan.email, Some(id)) then Err(Conflict)
    else
      var relinked := EditLinks(db, actor, id, plan);
      if relinked.Err? then relinked
      else
        var resolved := EditStudents(db, relinked.value, id, plan, action);
        if resolved.Err? then resolved else EditFamily(db, resolved.value, id, plan)
  }

  ghost function UpdateUser(db: Db, actor: Uid, id: Uid, edit: Edit): Result<Db, Refusal>
    requires IsStaff(db, actor)
  {
    var plan := PlanEdit(db, actor, id, edit);
    if plan.Err? then Err(plan.error) else ApplyEdit(db, actor, id, plan.value, edit.studentAction)
  }

  function Removed(db: Db, id: Uid): Db {
    db.(users := db.users - {id},
        links := (set l | l in db.links && l.0 != id),
        students := map s | s in db.students ::
          if db.students[s].teacher == Some(id) then db.students[s].(teacher := None) else db.students[s])
  }

  function DeleteUser(db: Db, actor: Uid, id: Uid): Result<Db, Refusal>
    requires IsStaff(db, actor)
  {
    var me := db.users[actor];
    if id == actor then Err(BadRequest)
    else if id !in db.users then Err(NotFound)
    else if me.role == Teacher && !Linkable(db.users[id].role) then Err(Forbidden)
    else if me.role == Teacher && me.center == None then Err(Forbidden)
    else if me.role == Teacher && db.users[id].center != me.center then Err(NotFound)
    else if me.role == Teacher && (exists l :: l in db.links && l.0 == id && !InScope(db, me.role, me.center, actor, l.1))
    then Err(Forbidden)
    else Ok(Removed(db, id))
  }

  // ---- students ----------------------------------------------------------------------------

  // The teacher of a new or reassigned student: a Teacher is it themselves, an Admin chooses.
  function ResolveTeacher(db: Db, actor: Uid, requested: Option<Option<Uid>>): Result<Option<Uid>, Refusal>
    requires IsStaff(db, actor)
  {
    if db.users[actor].role == Teacher then Ok(Some(actor))
    else if requested == Some(None) then Ok(None)
    else if requested.Some? && requested.value.value in db.users && db.users[requested.value.value].role == Teacher
    then Ok(requested.value)
    else Err(BadRequest)
  }

  ghost function AddStudent(db: Db, student: Student): Db {
    var s := db.nextStudent;
    LinkAccountsByEmail(db.(students := db.students[s := student], nextStudent := s + 1), s, EmailsOf(student.emails))
  }

  ghost function CreateStudent(db: Db, actor: Uid, teacher: Option<Option<Uid>>, emails: Emails, who: string): Result<Db, Refusal>
    requires IsStaff(db, actor)
  {
    var t := ResolveTeacher(db, actor, teacher);
    if t.Err? then Err(t.error) else Ok(AddStudent(db, Student(t.value, emails, who)))
  }

  datatype StudentEdit = StudentEdit(teacher: Option<Option<Uid>>, mother: Option<Option<Email>>,
                                     father: Option<Option<Email>>, guardian: Option<Option<Email>>, who: Option<string>)

  function Written<T>(field: Option<T>, before: T): T {
    if field.Some? then field.value else before
  }

  function Changed(field: Option<Option<Email>>, before: Option<Email>): set<Email> {
    if field.Some? && field.value != before && field.value.Some? then {field.value.value} else {}
  }

  function ChangedEmails(edit: StudentEdit, before: Emails): set<Email> {
    Changed(edit.mother, before.mother) + Changed(edit.father, before.father) + Changed(edit.guardian, before.guardian)
  }

  function EditedStudent(before: Student, edit: StudentEdit, teacher: Option<Uid>): Student {
    Student(teacher,
            Emails(Written(edit.mother, before.emails.mother), Written(edit.father, before.emails.father),
                   Written(edit.guardian, before.emails.guardian)),
            Written(edit.who, before.who))
  }

  // No family account of the student is anywhere but at the teacher's center.
  ghost predicate ParentsAtCenterOf(db: Db, s: Sid, teacher: Option<Uid>) {
    var center := if teacher.Some? && teacher.value in db.users then db.users[teacher.value].center else None;
    forall l :: l in db.links && l.1 == s ==> center.Some? && l.0 in db.users && db.users[l.0].center == center
  }

  ghost function UpdateStudent(db: Db, actor: Uid, s: Sid, edit: StudentEdit): Result<Db, Refusal>
    requires IsStaff(db, actor)
  {
    if !CanAccess(db, actor, s) || (edit.teacher.Some? && db.users[actor].role != Admin) then Err(Forbidden)
    else
      var teacher := if edit.teacher.Some? then ResolveTeacher(db, actor, edit.teacher) else Ok(None);
      if teacher.Err? then Err(teacher.error)
      else if s !in db.students then Err(NotFound)
      else
        var before := db.students[s];
        var next := if edit.teacher.Some? then teacher.value else before.teacher;
        var updated := db.(students := db.students[s := EditedStudent(before, edit, next)]);
        if next != before.teacher && !ParentsAtCenterOf(updated, s, next) then Err(BadRequest)
        else Ok(LinkAccountsByEmail(updated, s, ChangedEmails(edit, before.emails)))
  }

  function WithoutStudent(db: Db, s: Sid): Db {
    db.(students := db.students - {s}, links := set l | l in db.links && l.1 != s)
  }

  ghost function DeactivateParentsWithoutChildren(db: Db, parents: set<Uid>): Db {
    db.(users := map u | u in db.users ::
          if u in parents && Linkable(db.users[u].role) && !HasLink(db, u) then db.users[u].(active := false) else db.users[u])
  }

  ghost function DeleteStudent(db: Db, actor: Uid, s: Sid): Result<Db, Refusal>
    requires IsStaff(db, actor)
  {
    if !CanAccess(db, actor, s) then Err(Forbidden)
    else if s !in db.students then Err(NotFound)
    else Ok(DeactivateParentsWithoutChildren(WithoutStudent(db, s), set l | l in db.links && l.1 == s :: l.0))
  }

  // ---- import of students ---------------------------------------------------------------------

  datatype Row = Malformed | Row(emails: Emails, who: string)

  predicate IsDuplicate(db: Db, who: string, teacher: Option<Uid>) {
    exists s :: s in db.students && db.students[s].who == who && db.students[s].teacher == teacher
  }

  function TeacherOfRows(db: Db, actor: Uid): Option<Uid>
    requires actor in db.users
  {
    if db.users[actor].role == Teacher then Some(actor) else None
  }

  ghost predicate RowFails(db: Db, row: Row, teacher: Option<Uid>) {
    row.Malformed? || IsDuplicate(db, row.who, teacher)
  }

  ghost function ImportRow(db: Db, row: Row, teacher: Option<Uid>): Db {
    if RowFails(db, row, teacher) then db else AddStudent(db, Student(teacher, row.emails, row.who))
  }

  // The tables after the first `n` rows, and the file rows that failed (the header is row 1).
  ghost function ImportRows(db: Db, rows: seq<Row>, n: nat, teacher: Option<Uid>): (Db, seq<nat>)
    requires n <= |rows|
  {
    if n == 0 then (db, [])
    else
      var (before, failed) := ImportRows(db, rows, n - 1, teacher);
      (ImportRow(before, rows[n - 1], teacher), if RowFails(before, rows[n - 1], teacher) then failed + [n + 1] else failed)
  }

  const MAX_IMPORT_ROWS := 500

  ghost function ImportStudents(db: Db, actor: Uid, rows: seq<Row>): Result<(Db, seq<nat>), Refusal>
    requires IsStaff(db, actor)
  {
    if rows == [] || |rows| > MAX_IMPORT_ROWS then Err(BadRequest)
    else Ok(ImportRows(db, rows, |rows|, TeacherOfRows(db, actor)))
  }

  // ---- any request ------------------------------------------------------------------------------

  datatype Request =
    | Register(registration: Registration)
    | ChangeUser(id: Uid, edit: Edit)
    | RemoveUser(id: Uid)
    | NewStudent(teacher: Option<Option<Uid>>, emails: Emails, who: string)
    | ChangeStudent(sid: Sid, studentEdit: StudentEdit)
    | RemoveStudent(sid: Sid)
    | BulkImport(rows: seq<Row>)

  ghost function Serve(db: Db, actor: Uid, request: Request): Result<Db, Refusal> {
    if actor !in db.users || !db.users[actor].active then Err(Unauthorized)
    else if !IsStaff(db, actor) then Err(Forbidden)
    else
      match request
      case Register(r) => RegisterUser(db, actor, r)
      case ChangeUser(id, edit) => UpdateUser(db, actor, id, edit)
      case RemoveUser(id) => DeleteUser(db, actor, id)
      case NewStudent(teacher, emails, who) => CreateStudent(db, actor, teacher, emails, who)
      case ChangeStudent(s, edit) => UpdateStudent(db, actor, s, edit)
      case RemoveStudent(s) => DeleteStudent(db, actor, s)
      case BulkImport(rows) =>
        var r := ImportStudents(db, actor, rows);
        if r.Ok? then Ok(r.value.0) else Err(r.error)
  }

  // A refused request changes nothing.
  ghost function After(db: Db, actor: Uid, request: Request): Db {
    var r := Serve(db, actor, request);
    if r.Ok? then r.value else db
  }

  ghost function AfterAll(db: Db, requests: seq<(Uid, Request)>): Db {
    if requests == [] then db
    else
      var last := requests[|requests| - 1];
      After(AfterAll(db, requests[..|requests| - 1]), last.0, last.1)
  }
}
