/** What the gateway posts: tag sightings, resolved to students from the server's own registry, grouped
    per student and recorded by the bounded workers. */
module Gateway {
  import opened Options
  import opened Signals
  import opened Attendance
  import opened WorkerPool
  import opened BoundedWorkers

  // `at`: the instant at which this reading is recorded.
  datatype TagEvent = TagEvent(tag: string, rssi: real, at: int)

  // A row of the registry: an enabled tag of an active student, with the center of the student's teacher.
  datatype Device = Device(tag: string, student: Student, center: Center)

  // The student a tag stands for, if their center has a session running.
  function TagStudent(devices: seq<Device>, active: map<Center, nat>, tag: string): Option<Student> {
    if devices == [] then None
    else
      var last := devices[|devices| - 1];
      if last.tag == tag && last.center in active then Some(last.student)
      else TagStudent(devices[..|devices| - 1], active, tag)
  }

  function StudentSession(devices: seq<Device>, active: map<Center, nat>, student: Student): Option<nat> {
    if devices == [] then None
    else
      var last := devices[|devices| - 1];
      if last.student == student && last.center in active then Some(active[last.center])
      else StudentSession(devices[..|devices| - 1], active, student)
  }

  // The last row of the registry with this tag, or this student, at a center that has a session running.
  ghost predicate IsLastDevice(devices: seq<Device>, active: map<Center, nat>, k: nat, tag: string) {
    && k < |devices| && devices[k].tag == tag && devices[k].center in active
    && forall j :: k < j < |devices| && devices[j].tag == tag ==> devices[j].center !in active
  }

  ghost predicate IsLastOf(devices: seq<Device>, active: map<Center, nat>, k: nat, student: Student) {
    && k < |devices| && devices[k].student == student && devices[k].center in active
    && forall j :: k < j < |devices| && devices[j].student == student ==> devices[j].center !in active
  }

  /** A tag stands for the student of its row, if that student's center has a session running, and for nobody else;
      and a student's sightings go to the running session of their own center. */
  lemma {:induction false} TagsExactly(devices: seq<Device>, active: map<Center, nat>, tag: string, student: Student)
    ensures var s := TagStudent(devices, active, tag);
            if s.Some? then exists k: nat :: IsLastDevice(devices, active, k, tag) && devices[k].student == s.value
            else forall k :: 0 <= k < |devices| && devices[k].tag == tag ==> devices[k].center !in active
    ensures var session := StudentSession(devices, active, student);
            if session.Some? then exists k: nat :: IsLastOf(devices, active, k, student) && active[devices[k].center] == session.value
            else forall k :: 0 <= k < |devices| && devices[k].student == student ==> devices[k].center !in active
  {
    if devices != [] {
      var last := |devices| - 1;
      var front := devices[..last];
      TagsExactly(front, active, tag, student);
      assert forall k :: 0 <= k < last ==> front[k] == devices[k];
      if devices[last].tag == tag && devices[last].center in active {
        assert IsLastDevice(devices, active, last, tag);
      } else if TagStudent(front, active, tag).Some? {
        var k: nat :| IsLastDevice(front, active, k, tag) && front[k].student == TagStudent(front, active, tag).value;
        assert IsLastDevice(devices, active, k, tag);
      }
      if devices[last].student == student && devices[last].center in active {
        assert IsLastOf(devices, active, last, student);
      } else if StudentSession(front, active, student).Some? {
        var k: nat :| IsLastOf(front, active, k, student) && active[front[k].center] == StudentSession(front, active, student).value;
        assert IsLastOf(devices, active, k, student);
      }
    }
  }

  datatype Registry = Registry(studentByDevice: map<string, Student>, sessionByStudent: map<Student, nat>)

  predicate RegistryOk(reg: Registry, db: Db) {
    && (forall t :: t in reg.studentByDevice ==> reg.studentByDevice[t] in reg.sessionByStudent)
    && (forall s :: s in reg.sessionByStudent ==> reg.sessionByStudent[s] < |db.sessions|)
  }

  method ResolveTags(devices: seq<Device>, active: map<Center, nat>) returns (reg: Registry)
    ensures forall t :: TagStudent(devices, active, t)
                        == if t in reg.studentByDevice then Some(reg.studentByDevice[t]) else None
    ensures forall s :: StudentSession(devices, active, s)
                        == if s in reg.sessionByStudent then Some(reg.sessionByStudent[s]) else None
    ensures forall t :: t in reg.studentByDevice ==> reg.studentByDevice[t] in reg.sessionByStudent
    ensures forall s :: s in reg.sessionByStudent ==> exists c :: c in active && active[c] == reg.sessionByStudent[s]
  {
    reg := Registry(map[], map[]);
    for i := 0 to |devices|
      invariant forall t :: TagStudent(devices[..i], active, t)
                            == if t in reg.studentByDevice then Some(reg.studentByDevice[t]) else None
      invariant forall s :: StudentSession(devices[..i], active, s)
                            == if s in reg.sessionByStudent then Some(reg.sessionByStudent[s]) else None
      invariant forall t :: t in reg.studentByDevice ==> reg.studentByDevice[t] in reg.sessionByStudent
      invariant forall s :: s in reg.sessionByStudent ==> exists c :: c in active && active[c] == reg.sessionByStudent[s]
    {
      var d := devices[i];
      assert devices[..i + 1][..i] == devices[..i];
      if d.center in active {
        reg := Registry(reg.studentByDevice[d.tag := d.student], reg.sessionByStudent[d.student := active[d.center]]);
      }
    }
    assert devices[..|devices|] == devices;
  }

  // ---- grouping ------------------------------------------------------------------------

  predicate IsFor(e: TagEvent, reg: Registry, student: Student) {
    e.tag in reg.studentByDevice && reg.studentByDevice[e.tag] == student
  }

  function ReadingsOf(events: seq<TagEvent>, reg: Registry, student: Student): seq<Reading> {
    if events == [] then []
    else
      var last := events[|events| - 1];
      var before := ReadingsOf(events[..|events| - 1], reg, student);
      if IsFor(last, reg, student) then before + [Reading(last.rssi, last.at)] else before
  }

  function Accepted(events: seq<TagEvent>, reg: Registry): nat {
    if events == [] then 0
    else Accepted(events[..|events| - 1], reg) + (if events[|events| - 1].tag in reg.studentByDevice then 1 else 0)
  }

  function TotalReadings(items: seq<Item>): nat {
    if items == [] then 0 else TotalReadings(items[..|items| - 1]) + |items[|items| - 1].readings|
  }

  // One item per student seen, each with all and only that student's readings, in order.
  ghost predicate Grouped(items: seq<Item>, events: seq<TagEvent>, reg: Registry) {
    && (forall i, j :: 0 <= i < j < |items| ==> items[i].student != items[j].student)
    && (forall i :: 0 <= i < |items| ==>
          && items[i].student in reg.sessionByStudent
          && items[i] == Item(reg.sessionByStudent[items[i].student], items[i].student, Ble, ReadingsOf(events, reg, items[i].student)))
    && (forall s :: ReadingsOf(events, reg, s) != [] ==> exists i :: 0 <= i < |items| && items[i].student == s)
  }

  function TotalOf(students: seq<Student>, events: seq<TagEvent>, reg: Registry): nat {
    if students == [] then 0
    else TotalOf(students[..|students| - 1], events, reg) + |ReadingsOf(events, reg, students[|students| - 1])|
  }

  lemma {:induction false} OneMoreEvent(students: seq<Student>, events: seq<TagEvent>, reg: Registry)
    requires events != [] && Distinct(students)
    ensures var last := events[|events| - 1];
            TotalOf(students, events, reg)
            == TotalOf(students, events[..|events| - 1], reg)
               + (if last.tag in reg.studentByDevice && reg.studentByDevice[last.tag] in students then 1 else 0)
  {
    if students != [] {
      var front := students[..|students| - 1];
      OneMoreEvent(front, events, reg);
      assert students == front + [students[|students| - 1]];
    }
  }

  // Every registered sighting ends up in exactly one student's group.
  lemma {:induction false} TotalIsAccepted(students: seq<Student>, events: seq<TagEvent>, reg: Registry)
    requires Distinct(students) && forall s :: ReadingsOf(events, reg, s) != [] ==> s in students
    ensures TotalOf(students, events, reg) == Accepted(events, reg)
  {
    if events == [] {
      NothingTotal(students, reg);
    } else {
      OneMoreEvent(students, events, reg);
      TotalIsAccepted(students, events[..|events| - 1], reg);
    }
  }

  lemma {:induction false} NothingTotal(students: seq<Student>, reg: Registry)
    ensures TotalOf(students, [], reg) == 0
  {
    if students != [] {
      NothingTotal(students[..|students| - 1], reg);
    }
  }

  lemma {:induction false} TotalOfItems(items: seq<Item>, students: seq<Student>, events: seq<TagEvent>, reg: Registry)
    requires |items| == |students|
    requires forall i :: 0 <= i < |items| ==> items[i].readings == ReadingsOf(events, reg, students[i])
    ensures TotalReadings(items) == TotalOf(students, events, reg)
  {
    if items != [] {
      TotalOfItems(items[..|items| - 1], students[..|items| - 1], events, reg);
    }
  }

  // One student's readings stay in order; different students can be recorded together.
  method GroupByStudent(events: seq<TagEvent>, reg: Registry) returns (items: seq<Item>, accepted: nat)
    requires forall t :: t in reg.studentByDevice ==> reg.studentByDevice[t] in reg.sessionByStudent
    ensures Grouped(items, events, reg)
    ensures accepted == Accepted(events, reg)
  {
    var byStudent: map<Student, seq<Reading>> := map[];
    var students: seq<Student> := [];
    for n := 0 to |events|
      invariant forall s :: ReadingsOf(events[..n], reg, s) == if s in byStudent then byStudent[s] else []
      invariant Distinct(students) && forall s :: s in students <==> s in byStudent
      invariant forall s :: s in byStudent ==> s in reg.sessionByStudent
    {
      var e := events[n];
      assert events[..n + 1][..n] == events[..n];
      if e.tag in reg.studentByDevice {
        var s := reg.studentByDevice[e.tag];
        if s !in byStudent {
          students := students + [s];
        }
        byStudent := byStudent[s := (if s in byStudent then byStudent[s] else []) + [Reading(e.rssi, e.at)]];
      }
    }
    assert events[..|events|] == events;
    items := seq(|students|, i requires 0 <= i < |students| && students[i] in byStudent && students[i] in reg.sessionByStudent =>
                   Item(reg.sessionByStudent[students[i]], students[i], Ble, byStudent[students[i]]));
    EveryStudentHasAnItem(items, students, events, reg);
    TotalOfItems(items, students, events, reg);
    TotalIsAccepted(students, events, reg);
    accepted := TotalReadings(items);
  }

  lemma EveryStudentHasAnItem(items: seq<Item>, students: seq<Student>, events: seq<TagEvent>, reg: Registry)
    requires |items| == |students| && Distinct(students)
    requires forall s :: ReadingsOf(events, reg, s) != [] ==> s in students
    requires forall i :: 0 <= i < |items| ==> students[i] in reg.sessionByStudent
    requires forall i :: 0 <= i < |items| ==>
               items[i] == Item(reg.sessionByStudent[students[i]], students[i], Ble, ReadingsOf(events, reg, students[i]))
    ensures Grouped(items, events, reg)
  {
  }

  // ---- one event after the other ---------------------------------------------------------

  function RecordEvents(db: Db, events: seq<TagEvent>, reg: Registry, cfg: Config): (after: Db)
    requires RegistryOk(reg, db)
    ensures after.sessions == db.sessions
  {
    if events == [] then db
    else
      var e := events[|events| - 1];
      var before := RecordEvents(db, events[..|events| - 1], reg, cfg);
      if e.tag !in reg.studentByDevice then before
      else
        var s := reg.studentByDevice[e.tag];
        RecordSignal(before, reg.sessionByStudent[s], s, Ble, e.rssi, e.at, cfg).0
  }

  lemma {:induction false} ReadingsArePrefix(events: seq<TagEvent>, n: nat, reg: Registry, s: Student)
    requires n <= |events|
    ensures ReadingsOf(events[..n], reg, s) <= ReadingsOf(events, reg, s)
  {
    if n < |events| {
      ReadingsArePrefix(events[..|events| - 1], n, reg, s);
      assert events[..|events| - 1][..n] == events[..n];
    } else {
      assert events[..n] == events;
    }
  }

  lemma EventsOnSlices(db: Db, events: seq<TagEvent>, n: nat, reg: Registry, items: seq<Item>, cfg: Config)
    requires RegistryOk(reg, db) && n <= |events| && Grouped(items, events, reg) && ItemsOk(db, items)
    ensures Framed(db, RecordEvents(db, events[..n], reg, cfg), items)
    ensures forall i :: 0 <= i < |items| ==>
              && |ReadingsOf(events[..n], reg, items[i].student)| <= |items[i].readings|
              && SliceOf(RecordEvents(db, events[..n], reg, cfg), items[i])
                 == RecordFirst(SliceOf(db, items[i]), items[i], |ReadingsOf(events[..n], reg, items[i].student)|, cfg).0
  {
    hide SliceOf, RecordSignal, RecordOne, OnlyItsRows, Framed;
    forall i | 0 <= i < |items| ensures |ReadingsOf(events[..n], reg, items[i].student)| <= |items[i].readings| {
      ReadingsArePrefix(events, n, reg, items[i].student);
    }
    if n == 0 {
      FramedAtStart(db, items);
    } else {
      EventsOnSlices(db, events, n - 1, reg, items, cfg);
      assert events[..n][..n - 1] == events[..n - 1];
      var mid, after, e := RecordEvents(db, events[..n - 1], reg, cfg), RecordEvents(db, events[..n], reg, cfg), events[n - 1];
      if e.tag in reg.studentByDevice {
        var s := reg.studentByDevice[e.tag];
        ReadingsArePrefix(events, n, reg, s);
        var read := ReadingsOf(events[..n - 1], reg, s);
        assert ReadingsOf(events[..n], reg, s) == read + [Reading(e.rssi, e.at)];
        var k :| 0 <= k < |items| && items[k].student == s;
        assert items[k].readings[|read|] == Reading(e.rssi, e.at);
        RecordSignalOnSlice(mid, items[k], Reading(e.rssi, e.at), cfg);
        StillFramed(db, mid, after, items, k);
        forall i | 0 <= i < |items| && i != k
          ensures SliceOf(after, items[i]) == SliceOf(mid, items[i])
          ensures ReadingsOf(events[..n], reg, items[i].student) == ReadingsOf(events[..n - 1], reg, items[i].student)
        {
          OthersSee(mid, after, items[k], items[i]);
        }
      }
    }
  }

  lemma FramedAtStart(db: Db, items: seq<Item>)
    requires ItemsOk(db, items)
    ensures Framed(db, db, items)
  {
  }

  /** Concurrent recording refines the sequential one: for every schedule of the workers that completes,
      all rows equal those of recording the registered events one by one in the order they came. */
  lemma ConcurrentRecordingIsEventByEvent(db: Db, events: seq<TagEvent>, reg: Registry, items: seq<Item>, limit: int,
                                          moves: seq<Move>, cfg: Config)
    requires RegistryOk(reg, db) && Grouped(items, events, reg)
    ensures ItemsOk(db, items)
    ensures Completed(Play(StartPool(db, items, limit), items, moves, cfg)) ==>
              Play(StartPool(db, items, limit), items, moves, cfg).db == RecordEvents(db, events, reg, cfg)
  {
    hide SliceOf, RecordFirst, Framed, Play, RecordInOrder, RecordEvents;
    GroupedItemsOk(db, events, reg, items);
    if Completed(Play(StartPool(db, items, limit), items, moves, cfg)) {
      ConcurrentIsSequential(db, items, limit, moves, cfg);
      SequentialByStudentIsByEvent(db, events, reg, items, cfg);
    }
  }

  lemma GroupedItemsOk(db: Db, events: seq<TagEvent>, reg: Registry, items: seq<Item>)
    requires RegistryOk(reg, db) && Grouped(items, events, reg)
    ensures ItemsOk(db, items)
  {
  }

  lemma SequentialByStudentIsByEvent(db: Db, events: seq<TagEvent>, reg: Registry, items: seq<Item>, cfg: Config)
    requires RegistryOk(reg, db) && Grouped(items, events, reg) && ItemsOk(db, items)
    ensures RecordInOrder(db, items, cfg) == RecordEvents(db, events, reg, cfg)
  {
    hide SliceOf, RecordFirst, Framed, RecordInOrder, RecordEvents, ReadingsOf;
    assert events[..|events|] == events;
    EventsOnSlices(db, events, |events|, reg, items, cfg);
    RecordInOrderOnSlices(db, items, items, cfg);
    SameSlicesSameRows(db, RecordInOrder(db, items, cfg), RecordEvents(db, events, reg, cfg), items);
  }

  // ---- the whole request -------------------------------------------------------------------

  // The sightings recorded one by one, each in the session of its student's center; others are ignored.
  function RecordTagged(db: Db, events: seq<TagEvent>, devices: seq<Device>, active: map<Center, nat>, cfg: Config): (after: Db)
    ensures after.sessions == db.sessions
  {
    if events == [] then db
    else
      var e := events[|events| - 1];
      var before := RecordTagged(db, events[..|events| - 1], devices, active, cfg);
      var student := TagStudent(devices, active, e.tag);
      if student == None then before
      else
        var session := StudentSession(devices, active, student.value);
        if session.Some? && session.value < |db.sessions|
        then RecordSignal(before, session.value, student.value, Ble, e.rssi, e.at, cfg).0 else before
  }

  function TaggedCount(events: seq<TagEvent>, devices: seq<Device>, active: map<Center, nat>): nat {
    if events == [] then 0
    else TaggedCount(events[..|events| - 1], devices, active)
         + (if TagStudent(devices, active, events[|events| - 1].tag).Some? then 1 else 0)
  }

  ghost predicate Resolves(reg: Registry, devices: seq<Device>, active: map<Center, nat>) {
    && (forall t :: TagStudent(devices, active, t) == if t in reg.studentByDevice then Some(reg.studentByDevice[t]) else None)
    && (forall s :: StudentSession(devices, active, s) == if s in reg.sessionByStudent then Some(reg.sessionByStudent[s]) else None)
  }

  lemma {:induction false} RegistryRecordsTagged(db: Db, events: seq<TagEvent>, reg: Registry, devices: seq<Device>,
                                                 active: map<Center, nat>, cfg: Config)
    requires RegistryOk(reg, db) && Resolves(reg, devices, active)
    ensures RecordEvents(db, events, reg, cfg) == RecordTagged(db, events, devices, active, cfg)
    ensures Accepted(events, reg) == TaggedCount(events, devices, active)
  {
    hide RecordSignal, TagStudent, StudentSession;
    if events != [] {
      RegistryRecordsTagged(db, events[..|events| - 1], reg, devices, active, cfg);
    }
  }

  datatype Reply = Reply(sessionActive: bool, accepted: nat)

  /** The gateway's post, whatever the schedule of its workers: it accepts exactly the sightings of known
      tags whose center has a session running, and unless a database call fails the rows are those of
      recording these one by one in the order they came. */
  method PostEvents(db: Db, events: seq<TagEvent>, devices: seq<Device>, cfg: Config) returns (reply: Result<Reply, ()>, rows: Db)
    ensures var active := SessionsByCenter(db.sessions);
            reply.Ok? ==>
              && reply.value == Reply(active != map[], TaggedCount(events, devices, active))
              && rows == RecordTagged(db, events, devices, active, cfg)
  {
    hide TagStudent, StudentSession, RecordEvents, Framed, RecordInOrder, SessionsByCenter;
    var active := SessionsByCenter(db.sessions);
    if active == map[] {
      NoSessionNothingTagged(db, events, devices, cfg);
      return Ok(Reply(false, 0)), db;
    }
    if events == [] {
      return Ok(Reply(true, 0)), db;
    }
    var reg := ResolveTags(devices, active);
    var items, accepted := GroupByStudent(events, reg);
    GroupedItemsOk(db, events, reg, items);
    var done, after, _ := MapWithLimit(db, items, SIGNAL_CONCURRENCY, cfg);
    rows := after;
    if done.Err? {
      return Err(()), rows;
    }
    SequentialByStudentIsByEvent(db, events, reg, items, cfg);
    RegistryRecordsTagged(db, events, reg, devices, active, cfg);
    return Ok(Reply(true, accepted)), rows;
  }

  lemma {:induction false} NoSessionNothingTagged(db: Db, events: seq<TagEvent>, devices: seq<Device>, cfg: Config)
    ensures RecordTagged(db, events, devices, map[], cfg) == db && TaggedCount(events, devices, map[]) == 0
  {
    if events != [] {
      NoSessionNothingTagged(db, events[..|events| - 1], devices, cfg);
      NoTagWithoutSession(devices, events[|events| - 1].tag);
    }
  }

  lemma {:induction false} NoTagWithoutSession(devices: seq<Device>, tag: string)
    ensures TagStudent(devices, map[], tag) == None
  {
    if devices != [] {
      NoTagWithoutSession(devices[..|devices| - 1], tag);
    }
  }
}
