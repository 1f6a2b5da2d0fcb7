/** Saving many attendance records in one request, and saving them again. */
module BulkSave {
  import opened Options
  import opened SchoolTime
  import opened Attendance
  import opened AttendanceImport

  // No two entries of the request give one student's day two different statuses.
  ghost predicate NoConflict(entries: seq<Entry>) {
    forall i, j :: 0 <= i < j < |entries| && entries[i].key == entries[j].key ==> entries[i].status == entries[j].status
  }

  ghost predicate IsRefused(entries: seq<Entry>, now: int, cfg: Config) {
    exists k :: 0 <= k < |entries| && entries[k].key.1 > SchoolDay(now, cfg.zone)
  }

  lemma {:induction false} WrittenStatus(db: Db, entries: seq<Entry>, key: Key, now: int, cfg: Config)
    requires exists e :: e in entries && e.key == key
    ensures exists e :: e in entries && e.key == key && StatusOf(UpsertAll(db, entries, now, cfg).records, key) == Some(e.status)
  {
    var front, last := entries[..|entries| - 1], entries[|entries| - 1];
    assert entries == front + [last];
    if last.key != key {
      WrittenStatus(db, front, key, now, cfg);
      var e :| e in front && e.key == key && StatusOf(UpsertAll(db, front, now, cfg).records, key) == Some(e.status);
      assert e in entries;
    } else {
      assert last in entries;
    }
  }

  // After a save, each entry's record has the status of some written entry about it, or its own already.
  lemma SavedStatus(db: Db, entries: seq<Entry>, e: Entry, now: int, cfg: Config)
    requires e in entries && NoConflict(entries)
    ensures StatusOf(UpsertAll(db, ToWrite(db.records, entries), now, cfg).records, e.key) == Some(e.status)
  {
    hide UpsertAll, ToWrite;
    var written := ToWrite(db.records, entries);
    ToWriteIsPart(db.records, entries);
    if f :| f in written && f.key == e.key {
      WrittenStatus(db, written, e.key, now, cfg);
      var g :| g in written && g.key == e.key && StatusOf(UpsertAll(db, written, now, cfg).records, e.key) == Some(g.status);
      SameKeySameStatus(entries, e, g);
    } else {
      UpsertAllMisses(db, written, e.key, now, cfg);
    }
  }

  lemma SameKeySameStatus(entries: seq<Entry>, e: Entry, f: Entry)
    requires NoConflict(entries) && e in entries && f in entries && e.key == f.key
    ensures e.status == f.status
  {
  }

  lemma NothingToWrite(records: map<Key, Record>, entries: seq<Entry>)
    requires forall e :: e in entries ==> StatusOf(records, e.key) == Some(e.status)
    ensures ToWrite(records, entries) == []
  {
  }

  // A record that is written again gets a status it did not have.
  lemma WrittenAgainChanges(db: Db, entries: seq<Entry>, e: Entry, now: int, cfg: Config)
    requires e in entries && StatusOf(db.records, e.key) != Some(e.status)
    ensures UpsertAll(db, ToWrite(db.records, entries), now, cfg) != db
  {
    hide UpsertAll, ToWrite;
    var written := ToWrite(db.records, entries);
    ToWriteIsPart(db.records, entries);
    assert e in written;
    WrittenStatus(db, written, e.key, now, cfg);
  }

  /** Posting the same records again, at any later time, changes nothing exactly when the request does not
      contradict itself: the promise that a second submit is harmless does not cover a
      request that gives one student's day two statuses. */
  lemma RepostIsHarmlessExactly(db: Db, entries: seq<Entry>, now: int, later: int, cfg: Config)
    requires SchoolDay(now, cfg.zone) <= SchoolDay(later, cfg.zone) && !IsRefused(entries, now, cfg)
    ensures var once := RecordAttendance(db, entries, now, cfg);
            RecordAttendance(once, entries, later, cfg) == once <==> NoConflict(entries)
  {
    hide UpsertAll, ToWrite;
    var once := RecordAttendance(db, entries, now, cfg);
    assert once == UpsertAll(db, ToWrite(db.records, entries), now, cfg);
    assert RecordAttendance(once, entries, later, cfg) == UpsertAll(once, ToWrite(once.records, entries), later, cfg);
    if NoConflict(entries) {
      forall e | e in entries ensures StatusOf(once.records, e.key) == Some(e.status) {
        SavedStatus(db, entries, e, now, cfg);
      }
      NothingToWrite(once.records, entries);
      NoEntries(once, later, cfg);
    } else {
      var i, j :| 0 <= i < j < |entries| && entries[i].key == entries[j].key && entries[i].status != entries[j].status;
      if StatusOf(once.records, entries[i].key) != Some(entries[i].status) {
        WrittenAgainChanges(once, entries, entries[i], later, cfg);
      } else {
        WrittenAgainChanges(once, entries, entries[j], later, cfg);
      }
    }
  }

  lemma NoEntries(db: Db, now: int, cfg: Config)
    ensures UpsertAll(db, [], now, cfg) == db
  {
  }
}
