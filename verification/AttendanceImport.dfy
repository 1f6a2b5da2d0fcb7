/** CSV import of attendance: row validation, first row wins, and what is written or left alone. */
module AttendanceImport {
  import opened Options
  import opened SchoolTime
  import opened Attendance
  import opened AttendanceStore

  // A record as far as the text checks go: unreadable, or a code, a day and a status.
  datatype Row = Unreadable | Readable(code: string, day: Day, status: Status)

  datatype Reason = Invalid | UnknownCode | DuplicateOf(row: nat)

  datatype Failure = Failure(row: nat, reason: Reason)

  datatype Summary = Summary(dryRun: bool, created: nat, updated: nat, kept: nat, failed: seq<Failure>)

  // The header is row 1, so the first record is row 2.
  function RowNumber(i: nat): nat {
    i + 2
  }

  predicate IsParsed(row: Row, today: Day) {
    row.Readable? && row.day <= today
  }

  // The record a row is about, when it can be read and its code is one of the caller's students.
  function Target(row: Row, idByCode: map<string, Student>, today: Day): Option<Key> {
    if IsParsed(row, today) && row.code in idByCode then Some((idByCode[row.code], row.day)) else None
  }

  // The first row of the file about `key`, among the first `n`.
  function FirstRowFor(rows: seq<Row>, n: nat, key: Key, idByCode: map<string, Student>, today: Day): (first: Option<nat>)
    requires n <= |rows|
    ensures first.Some? ==> first.value < n && Target(rows[first.value], idByCode, today) == Some(key)
    ensures first.Some? ==> forall j :: 0 <= j < first.value ==> Target(rows[j], idByCode, today) != Some(key)
    ensures first == None ==> forall j :: 0 <= j < n ==> Target(rows[j], idByCode, today) != Some(key)
  {
    if n == 0 then None
    else
      var before := FirstRowFor(rows, n - 1, key, idByCode, today);
      if before.Some? then before
      else if Target(rows[n - 1], idByCode, today) == Some(key) then Some(n - 1) else None
  }

  // Why row `i` is not imported, if it is not.
  function FailureOf(rows: seq<Row>, i: nat, idByCode: map<string, Student>, today: Day): Option<Failure>
    requires i < |rows|
  {
    if !IsParsed(rows[i], today) then Some(Failure(RowNumber(i), Invalid))
    else
      var target := Target(rows[i], idByCode, today);
      if target == None then Some(Failure(RowNumber(i), UnknownCode))
      else
        var first := FirstRowFor(rows, i, target.value, idByCode, today);
        if first.Some? then Some(Failure(RowNumber(i), DuplicateOf(RowNumber(first.value)))) else None
  }

  function Failures(rows: seq<Row>, n: nat, idByCode: map<string, Student>, today: Day): seq<Failure>
    requires n <= |rows|
  {
    if n == 0 then []
    else
      var f := FailureOf(rows, n - 1, idByCode, today);
      Failures(rows, n - 1, idByCode, today) + (if f.Some? then [f.value] else [])
  }

  function ValidEntries(rows: seq<Row>, n: nat, idByCode: map<string, Student>, today: Day): seq<Entry>
    requires n <= |rows|
  {
    if n == 0 then []
    else
      var before := ValidEntries(rows, n - 1, idByCode, today);
      if FailureOf(rows, n - 1, idByCode, today) == None
      then before + [Entry(Target(rows[n - 1], idByCode, today).value, rows[n - 1].status)]
      else before
  }

  function CountNew(entries: seq<Entry>, records: map<Key, Record>): (n: nat)
    ensures n <= |entries|
  {
    if entries == [] then 0
    else CountNew(entries[..|entries| - 1], records) + (if entries[|entries| - 1].key in records then 0 else 1)
  }

  // What an import reports and leaves behind.
  function Import(db: Db, rows: seq<Row>, idByCode: map<string, Student>, dryRun: bool, now: int, cfg: Config): (Db, Summary) {
    var today := SchoolDay(now, cfg.zone);
    var valid := ValidEntries(rows, |rows|, idByCode, today);
    var toWrite := ToWrite(db.records, valid);
    ToWriteIsPart(db.records, valid);
    var created := CountNew(toWrite, db.records);
    (if dryRun then db else UpsertAll(db, toWrite, now, cfg),
     Summary(dryRun, created, |toWrite| - created, |valid| - |toWrite|, Failures(rows, |rows|, idByCode, today)))
  }

  lemma {:induction false} ToWriteIsPart(records: map<Key, Record>, entries: seq<Entry>)
    ensures |ToWrite(records, entries)| <= |entries|
    ensures forall e :: e in ToWrite(records, entries) <==> e in entries && StatusOf(records, e.key) != Some(e.status)
  {
    if entries != [] {
      ToWriteIsPart(records, entries[1..]);
      assert entries == [entries[0]] + entries[1..];
    }
  }

  // ---- the report -----------------------------------------------------------------------

  // Row `i` can be read, is not about the future, and its code is a student's.
  ghost predicate IsAbout(rows: seq<Row>, i: nat, key: Key, idByCode: map<string, Student>, today: Day) {
    && i < |rows| && rows[i].Readable? && rows[i].day <= today
    && rows[i].code in idByCode && key == (idByCode[rows[i].code], rows[i].day)
  }

  // What is wrong with row `i`: unreadable or about the future, of no student, or not the first about its record.
  ghost predicate IsWrong(rows: seq<Row>, i: nat, reason: Reason, idByCode: map<string, Student>, today: Day)
    requires i < |rows|
  {
    if rows[i].Unreadable? || rows[i].day > today then reason == Invalid
    else if rows[i].code !in idByCode then reason == UnknownCode
    else
      && reason.DuplicateOf? && 2 <= reason.row < i + 2
      && IsAbout(rows, reason.row - 2, (idByCode[rows[i].code], rows[i].day), idByCode, today)
      && forall j: nat :: j < reason.row - 2 ==> !IsAbout(rows, j, (idByCode[rows[i].code], rows[i].day), idByCode, today)
  }

  lemma TargetMeans(rows: seq<Row>, idByCode: map<string, Student>, today: Day)
    ensures forall i: nat, key: Key :: i < |rows| ==>
              (Target(rows[i], idByCode, today) == Some(key) <==> IsAbout(rows, i, key, idByCode, today))
  {
  }

  lemma FailureMeans(rows: seq<Row>, i: nat, idByCode: map<string, Student>, today: Day)
    requires i < |rows|
    ensures forall f :: FailureOf(rows, i, idByCode, today) == Some(f) <==> f.row == i + 2 && IsWrong(rows, i, f.reason, idByCode, today)
  {
    hide FirstRowFor, IsAbout;
    TargetMeans(rows, idByCode, today);
    var target := Target(rows[i], idByCode, today);
    if target.Some? {
      TargetIs(rows, i, idByCode, today);
      var first := FirstRowFor(rows, i, target.value, idByCode, today);
      assert first.Some? ==> IsAbout(rows, first.value, target.value, idByCode, today);
      assert first.Some? ==> forall j: nat :: j < first.value ==> !IsAbout(rows, j, target.value, idByCode, today);
      assert first == None ==> forall j: nat :: j < i ==> !IsAbout(rows, j, target.value, idByCode, today);
    }
  }

  lemma TargetIs(rows: seq<Row>, i: nat, idByCode: map<string, Student>, today: Day)
    requires i < |rows| && Target(rows[i], idByCode, today).Some?
    ensures rows[i].Readable? && rows[i].day <= today && rows[i].code in idByCode
    ensures Target(rows[i], idByCode, today).value == (idByCode[rows[i].code], rows[i].day)
  {
  }

  ghost predicate IsReported(rows: seq<Row>, n: nat, f: Failure, idByCode: map<string, Student>, today: Day)
    requires n <= |rows|
  {
    2 <= f.row < n + 2 && IsWrong(rows, f.row - 2, f.reason, idByCode, today)
  }

  /** The report names exactly the rows that are not imported, each once, in their order, with what is wrong with
      it; a repeated row with the line of the first row about the same record. */
  lemma {:induction false} ReportExactly(rows: seq<Row>, n: nat, idByCode: map<string, Student>, today: Day)
    requires n <= |rows|
    ensures var failed := Failures(rows, n, idByCode, today);
            && (forall f :: f in failed <==> IsReported(rows, n, f, idByCode, today))
            && (forall j, k :: 0 <= j < k < |failed| ==> failed[j].row < failed[k].row)
  {
    hide IsWrong, FailureOf;
    if n > 0 {
      ReportExactly(rows, n - 1, idByCode, today);
      FailureMeans(rows, n - 1, idByCode, today);
      var failed := Failures(rows, n - 1, idByCode, today);
      assert forall k :: 0 <= k < |failed| ==> failed[k] in failed;
      forall f ensures IsReported(rows, n, f, idByCode, today)
        <==> IsReported(rows, n - 1, f, idByCode, today) || (f.row == n + 1 && IsWrong(rows, n - 1, f.reason, idByCode, today)) {}
    }
  }

  // ---- conservation ----------------------------------------------------------------------

  lemma {:induction false} RowsSplit(rows: seq<Row>, n: nat, idByCode: map<string, Student>, today: Day)
    requires n <= |rows|
    ensures |ValidEntries(rows, n, idByCode, today)| + |Failures(rows, n, idByCode, today)| == n
  {
    if n > 0 {
      RowsSplit(rows, n - 1, idByCode, today);
    }
  }

  /** Every row is accounted for exactly once. */
  lemma ImportConserves(db: Db, rows: seq<Row>, idByCode: map<string, Student>, dryRun: bool, now: int, cfg: Config)
    ensures var s := Import(db, rows, idByCode, dryRun, now, cfg).1;
            s.created + s.updated + s.kept + |s.failed| == |rows|
  {
    var today := SchoolDay(now, cfg.zone);
    RowsSplit(rows, |rows|, idByCode, today);
    ToWriteIsPart(db.records, ValidEntries(rows, |rows|, idByCode, today));
  }

  /** A dry run promises exactly what the real run then reports, and changes nothing. */
  lemma DryRunTellsTheTruth(db: Db, rows: seq<Row>, idByCode: map<string, Student>, now: int, cfg: Config)
    ensures var (after, dry) := Import(db, rows, idByCode, true, now, cfg);
            var (_, wet) := Import(db, rows, idByCode, false, now, cfg);
            after == db && dry == wet.(dryRun := true)
  {
  }

  // ---- first row wins ----------------------------------------------------------------------

  ghost predicate KeysDiffer(entries: seq<Entry>) {
    forall i, j :: 0 <= i < j < |entries| ==> entries[i].key != entries[j].key
  }

  lemma {:induction false} ValidEntriesExact(rows: seq<Row>, n: nat, idByCode: map<string, Student>, today: Day)
    requires n <= |rows|
    ensures var valid := ValidEntries(rows, n, idByCode, today);
            && KeysDiffer(valid)
            && forall e :: e in valid <==>
                 var first := FirstRowFor(rows, n, e.key, idByCode, today);
                 first.Some? && rows[first.value].status == e.status
  {
    if n > 0 {
      ValidEntriesExact(rows, n - 1, idByCode, today);
      var before, valid := ValidEntries(rows, n - 1, idByCode, today), ValidEntries(rows, n, idByCode, today);
      forall e ensures e in valid <==>
                 var first := FirstRowFor(rows, n, e.key, idByCode, today);
                 first.Some? && rows[first.value].status == e.status
      {
        assert e in before <==>
                 var first := FirstRowFor(rows, n - 1, e.key, idByCode, today);
                 first.Some? && rows[first.value].status == e.status;
      }
    }
  }

  lemma {:induction false} UpsertAllMisses(db: Db, entries: seq<Entry>, key: Key, now: int, cfg: Config)
    requires forall e :: e in entries ==> e.key != key
    ensures Untouched(db, UpsertAll(db, entries, now, cfg), key)
  {
    if entries != [] {
      UpsertAllMisses(db, entries[..|entries| - 1], key, now, cfg);
    }
  }

  // Marked from scratch: an arrival now for "present" today, no pickup, no verification.
  ghost predicate MarkedAnew(db: Db, key: Key, status: Status, now: int, cfg: Config) {
    && key in db.records && key !in db.verifications
    && db.records[key] == Record(status, if status == Present && key.1 == (now + cfg.zone * 60_000) / 86_400_000 then Some(now) else None, None, false)
  }

  lemma {:induction false} UpsertAllHits(db: Db, entries: seq<Entry>, e: Entry, now: int, cfg: Config)
    requires KeysDiffer(entries) && e in entries
    ensures MarkedAnew(UpsertAll(db, entries, now, cfg), e.key, e.status, now, cfg)
  {
    var last := |entries| - 1;
    if entries[last] != e {
      var i :| 0 <= i < |entries| && entries[i] == e;
      assert entries[..last][i] == e;
      UpsertAllHits(db, entries[..last], e, now, cfg);
    }
  }

  lemma {:induction false} UpsertAllCreates(db: Db, entries: seq<Entry>, now: int, cfg: Config)
    requires KeysDiffer(entries)
    ensures |UpsertAll(db, entries, now, cfg).records| == |db.records| + CountNew(entries, db.records)
  {
    if entries != [] {
      var front, last := entries[..|entries| - 1], entries[|entries| - 1];
      UpsertAllCreates(db, front, now, cfg);
      assert forall k :: 0 <= k < |front| ==> front[k] == entries[k];
      UpsertAllMisses(db, front, last.key, now, cfg);
    }
  }

  lemma FirstRowEntries(db: Db, rows: seq<Row>, idByCode: map<string, Student>, today: Day, key: Key)
    ensures var toWrite := ToWrite(db.records, ValidEntries(rows, |rows|, idByCode, today));
            var first := FirstRowFor(rows, |rows|, key, idByCode, today);
            && KeysDiffer(toWrite)
            && if first.Some? && StatusOf(db.records, key) != Some(rows[first.value].status)
               then Entry(key, rows[first.value].status) in toWrite
               else forall f :: f in toWrite ==> f.key != key
  {
    hide ToWrite, ValidEntries, FirstRowFor;
    var valid := ValidEntries(rows, |rows|, idByCode, today);
    ValidEntriesExact(rows, |rows|, idByCode, today);
    ToWriteIsPart(db.records, valid);
    ToWriteKeysDiffer(db.records, valid);
  }

  /** After a real import each record whose status differs from the file's first row about it is marked anew with
      that status; records whose status already matched, or that no row names, keep arrival, pickup and
      verification; and the other tables keep everything. */
  lemma FirstRowWins(db: Db, rows: seq<Row>, idByCode: map<string, Student>, now: int, key: Key, cfg: Config)
    ensures var (after, summary) := Import(db, rows, idByCode, false, now, cfg);
            var first := FirstRowFor(rows, |rows|, key, idByCode, SchoolDay(now, cfg.zone));
            && StatusOf(after.records, key) == (if first.Some? then Some(rows[first.value].status) else StatusOf(db.records, key))
            && (if first == None || StatusOf(db.records, key) == Some(rows[first.value].status) then Untouched(db, after, key)
                else MarkedAnew(after, key, rows[first.value].status, now, cfg))
            && after == db.(records := after.records, verifications := after.verifications)
            && |after.records| == |db.records| + summary.created
  {
    hide ToWrite, ValidEntries, FirstRowFor, UpsertAll, CountNew, Failures;
    var today := SchoolDay(now, cfg.zone);
    var toWrite := ToWrite(db.records, ValidEntries(rows, |rows|, idByCode, today));
    FirstRowEntries(db, rows, idByCode, today, key);
    UpsertAllCreates(db, toWrite, now, cfg);
    UpsertAllKeepsTheRest(db, toWrite, now, cfg);
    var first := FirstRowFor(rows, |rows|, key, idByCode, today);
    if first.Some? && StatusOf(db.records, key) != Some(rows[first.value].status) {
      UpsertAllHits(db, toWrite, Entry(key, rows[first.value].status), now, cfg);
    } else {
      UpsertAllMisses(db, toWrite, key, now, cfg);
    }
  }

  lemma {:induction false} ToWriteKeysDiffer(records: map<Key, Record>, entries: seq<Entry>)
    requires KeysDiffer(entries)
    ensures KeysDiffer(ToWrite(records, entries))
  {
    if entries != [] {
      ToWriteKeysDiffer(records, entries[1..]);
      ToWriteIsPart(records, entries[1..]);
      forall e | e in ToWrite(records, entries[1..]) ensures e.key != entries[0].key {
        var i :| 0 <= i < |entries[1..]| && entries[1..][i] == e;
        assert entries[i + 1] == e;
      }
    }
  }

  ghost function KeysOf(entries: seq<Entry>): set<Key> {
    set i | 0 <= i < |entries| :: entries[i].key
  }

  lemma {:induction false} KeysAreCounted(entries: seq<Entry>)
    requires KeysDiffer(entries)
    ensures |KeysOf(entries)| == |entries|
  {
    if entries != [] {
      var last := |entries| - 1;
      KeysAreCounted(entries[..last]);
      assert forall i :: 0 <= i < last ==> entries[..last][i] == entries[i];
      assert KeysOf(entries) == KeysOf(entries[..last]) + {entries[last].key};
    }
  }

  // The records that are new or have another status.
  ghost function ChangedKeys(db: Db, after: Db): set<Key> {
    set k | k in after.records && StatusOf(db.records, k) != StatusOf(after.records, k)
  }

  /** What the summary counts, dry or not: "created" are the records the real import adds, "created" and "updated"
      together all it gives another status. */
  lemma SummaryCounts(db: Db, rows: seq<Row>, idByCode: map<string, Student>, dryRun: bool, now: int, cfg: Config)
    ensures var after, summary := Import(db, rows, idByCode, false, now, cfg).0, Import(db, rows, idByCode, dryRun, now, cfg).1;
            && summary.created == |after.records| - |db.records|
            && summary.created + summary.updated == |ChangedKeys(db, after)|
  {
    hide ToWrite, ValidEntries, FirstRowFor, UpsertAll, CountNew, Failures, KeysOf, MarkedAnew;
    var today := SchoolDay(now, cfg.zone);
    var toWrite := ToWrite(db.records, ValidEntries(rows, |rows|, idByCode, today));
    var after := Import(db, rows, idByCode, false, now, cfg).0;
    FirstRowWins(db, rows, idByCode, now, (0, 0), cfg);
    FirstRowEntries(db, rows, idByCode, today, (0, 0));
    KeysAreCounted(toWrite);
    forall key: Key ensures key in KeysOf(toWrite) <==> key in ChangedKeys(db, after) {
      FirstRowWins(db, rows, idByCode, now, key, cfg);
      FirstRowEntries(db, rows, idByCode, today, key);
      KeysOfHas(toWrite, key);
    }
    assert KeysOf(toWrite) == ChangedKeys(db, after);
  }

  lemma KeysOfHas(entries: seq<Entry>, key: Key)
    ensures key in KeysOf(entries) <==> exists e :: e in entries && e.key == key
  {
    if e :| e in entries && e.key == key {
      var i :| 0 <= i < |entries| && entries[i] == e;
      assert entries[i].key in KeysOf(entries);
    }
  }

  // Both days take the same rows: none of the file's dates is future on one and past on the other.
  ghost predicate SameRowsCount(rows: seq<Row>, a: Day, b: Day) {
    forall k :: 0 <= k < |rows| ==> (IsParsed(rows[k], a) <==> IsParsed(rows[k], b))
  }

  lemma {:induction false} SameFirstRow(rows: seq<Row>, n: nat, key: Key, idByCode: map<string, Student>, a: Day, b: Day)
    requires n <= |rows| && SameRowsCount(rows, a, b)
    ensures FirstRowFor(rows, n, key, idByCode, a) == FirstRowFor(rows, n, key, idByCode, b)
  {
  }

  lemma {:induction false} SameValidEntries(rows: seq<Row>, n: nat, idByCode: map<string, Student>, a: Day, b: Day)
    requires n <= |rows| && SameRowsCount(rows, a, b)
    ensures ValidEntries(rows, n, idByCode, a) == ValidEntries(rows, n, idByCode, b)
  {
    if n > 0 {
      SameValidEntries(rows, n - 1, idByCode, a, b);
      if IsParsed(rows[n - 1], a) && Target(rows[n - 1], idByCode, a).Some? {
        SameFirstRow(rows, n - 1, Target(rows[n - 1], idByCode, a).value, idByCode, a, b);
      }
    }
  }

  /** Importing the same file again writes nothing at all, the same day or any later day on which no row
      of it has stopped lying in the future. */
  lemma ReimportIsHarmless(db: Db, rows: seq<Row>, idByCode: map<string, Student>, now: int, later: int, cfg: Config)
    requires SameRowsCount(rows, SchoolDay(now, cfg.zone), SchoolDay(later, cfg.zone))
    ensures var once := Import(db, rows, idByCode, false, now, cfg).0;
            var (twice, summary) := Import(once, rows, idByCode, false, later, cfg);
            twice == once && summary.created == 0 && summary.updated == 0
  {
    var today := SchoolDay(now, cfg.zone);
    var once := Import(db, rows, idByCode, false, now, cfg).0;
    var valid := ValidEntries(rows, |rows|, idByCode, today);
    SameValidEntries(rows, |rows|, idByCode, today, SchoolDay(later, cfg.zone));
    ValidEntriesExact(rows, |rows|, idByCode, today);
    ToWriteIsPart(once.records, valid);
    if ToWrite(once.records, valid) != [] {
      var e := ToWrite(once.records, valid)[0];
      assert e in ToWrite(once.records, valid);
      FirstRowWins(db, rows, idByCode, now, e.key, cfg);
      assert false;
    }
  }

  // ---- the program ---------------------------------------------------------------------------

  function InsertByRow(f: Failure, sorted: seq<Failure>): seq<Failure> {
    if sorted == [] || f.row <= sorted[0].row then [f] + sorted else [sorted[0]] + InsertByRow(f, sorted[1..])
  }

  function SortByRow(failed: seq<Failure>): seq<Failure> {
    if failed == [] then [] else InsertByRow(failed[0], SortByRow(failed[1..]))
  }

  ghost predicate InRowOrder(failed: seq<Failure>) {
    forall i, j :: 0 <= i < j < |failed| ==> failed[i].row <= failed[j].row
  }

  lemma {:induction false} InsertKeepsOrder(f: Failure, sorted: seq<Failure>)
    requires InRowOrder(sorted)
    ensures var after := InsertByRow(f, sorted);
            && InRowOrder(after) && after != []
            && after[0].row == if sorted == [] || f.row <= sorted[0].row then f.row else sorted[0].row
  {
    if sorted != [] && f.row > sorted[0].row {
      InsertKeepsOrder(f, sorted[1..]);
    }
  }

  lemma {:induction false} InsertKeepsAll(f: Failure, sorted: seq<Failure>)
    ensures multiset(InsertByRow(f, sorted)) == multiset(sorted) + multiset{f}
  {
    if sorted != [] && f.row > sorted[0].row {
      InsertKeepsAll(f, sorted[1..]);
      assert sorted == [sorted[0]] + sorted[1..];
    }
  }

  lemma {:induction false} SortByRowExact(failed: seq<Failure>)
    ensures InRowOrder(SortByRow(failed)) && multiset(SortByRow(failed)) == multiset(failed)
  {
    if failed != [] {
      SortByRowExact(failed[1..]);
      InsertKeepsOrder(failed[0], SortByRow(failed[1..]));
      InsertKeepsAll(failed[0], SortByRow(failed[1..]));
      assert failed == [failed[0]] + failed[1..];
    }
  }

  ghost predicate InStrictRowOrder(failed: seq<Failure>) {
    forall i, j :: 0 <= i < j < |failed| ==> failed[i].row < failed[j].row
  }

  lemma SameFirst(a: seq<Failure>, b: seq<Failure>)
    requires InRowOrder(a) && InStrictRowOrder(b) && multiset(a) == multiset(b) && a != [] && b != []
    ensures a[0] == b[0]
  {
    assert a[0] in multiset(b) && b[0] in multiset(a);
    var i :| 0 <= i < |b| && b[i] == a[0];
    var j :| 0 <= j < |a| && a[j] == b[0];
  }

  lemma SameRest(a: seq<Failure>, b: seq<Failure>)
    requires multiset(a) == multiset(b) && a != [] && b != [] && a[0] == b[0]
    ensures multiset(a[1..]) == multiset(b[1..])
  {
    assert a == [a[0]] + a[1..] && b == [b[0]] + b[1..];
    assert multiset(a[1..]) == multiset(a) - multiset{a[0]};
    assert multiset(b[1..]) == multiset(b) - multiset{b[0]};
  }

  lemma {:induction false} SortedIsUnique(a: seq<Failure>, b: seq<Failure>)
    requires InRowOrder(a) && InStrictRowOrder(b) && multiset(a) == multiset(b)
    ensures a == b
  {
    assert |multiset(a)| == |a| && |multiset(b)| == |b|;
    if b != [] {
      SameFirst(a, b);
      SameRest(a, b);
      SortedIsUnique(a[1..], b[1..]);
      assert a == [a[0]] + a[1..] && b == [b[0]] + b[1..];
    }
  }

  lemma FailureNamesItsRow(rows: seq<Row>, i: nat, idByCode: map<string, Student>, today: Day)
    requires i < |rows|
    ensures var f := FailureOf(rows, i, idByCode, today); f.Some? ==> f.value.row == RowNumber(i)
  {
  }

  lemma {:induction false} FailuresInOrder(rows: seq<Row>, n: nat, idByCode: map<string, Student>, today: Day)
    requires n <= |rows|
    ensures var failed := Failures(rows, n, idByCode, today);
            InStrictRowOrder(failed) && forall k :: 0 <= k < |failed| ==> failed[k].row < RowNumber(n)
  {
    hide FailureOf;
    if n > 0 {
      FailuresInOrder(rows, n - 1, idByCode, today);
      FailureNamesItsRow(rows, n - 1, idByCode, today);
    }
  }

  function UnreadableRows(rows: seq<Row>, n: nat, today: Day): seq<Failure>
    requires n <= |rows|
  {
    if n == 0 then []
    else UnreadableRows(rows, n - 1, today) + (if IsParsed(rows[n - 1], today) then [] else [Failure(RowNumber(n - 1), Invalid)])
  }

  // The parsed rows, as indices into the file.
  function ParsedRows(rows: seq<Row>, n: nat, today: Day): (parsed: seq<nat>)
    requires n <= |rows|
    ensures forall k :: 0 <= k < |parsed| ==> parsed[k] < n && IsParsed(rows[parsed[k]], today)
  {
    if n == 0 then []
    else ParsedRows(rows, n - 1, today) + (if IsParsed(rows[n - 1], today) then [n - 1] else [])
  }

  function FailedTargets(rows: seq<Row>, n: nat, idByCode: map<string, Student>, today: Day): seq<Failure>
    requires n <= |rows|
  {
    if n == 0 then []
    else
      var f := FailureOf(rows, n - 1, idByCode, today);
      FailedTargets(rows, n - 1, idByCode, today)
      + (if f.Some? && IsParsed(rows[n - 1], today) then [f.value] else [])
  }

  // Row `i` fails in exactly one of the two passes, if it fails.
  lemma RowFailsOnce(rows: seq<Row>, i: nat, idByCode: map<string, Student>, today: Day) returns (f: seq<Failure>)
    requires i < |rows|
    ensures Failures(rows, i + 1, idByCode, today) == Failures(rows, i, idByCode, today) + f
    ensures || (&& UnreadableRows(rows, i + 1, today) == UnreadableRows(rows, i, today) + f
                && FailedTargets(rows, i + 1, idByCode, today) == FailedTargets(rows, i, idByCode, today))
            || (&& UnreadableRows(rows, i + 1, today) == UnreadableRows(rows, i, today)
                && FailedTargets(rows, i + 1, idByCode, today) == FailedTargets(rows, i, idByCode, today) + f)
  {
    var failure := FailureOf(rows, i, idByCode, today);
    f := if failure.Some? then [failure.value] else [];
  }

  ghost predicate SameElements(a: seq<Failure>, b: seq<Failure>, c: seq<Failure>) {
    multiset(a) + multiset(b) == multiset(c)
  }

  lemma NothingFound(rows: seq<Row>, idByCode: map<string, Student>, today: Day)
    ensures SameElements(UnreadableRows(rows, 0, today), FailedTargets(rows, 0, idByCode, today), Failures(rows, 0, idByCode, today))
  {
  }

  lemma {:induction false} TwoPassesFindAll(rows: seq<Row>, n: nat, idByCode: map<string, Student>, today: Day)
    requires n <= |rows|
    ensures SameElements(UnreadableRows(rows, n, today), FailedTargets(rows, n, idByCode, today), Failures(rows, n, idByCode, today))
  {
    hide UnreadableRows, FailedTargets, Failures, SameElements;
    if n == 0 {
      NothingFound(rows, idByCode, today);
    } else {
      TwoPassesFindAll(rows, n - 1, idByCode, today);
      var f := RowFailsOnce(rows, n - 1, idByCode, today);
      OneMoreFailure(UnreadableRows(rows, n - 1, today), FailedTargets(rows, n - 1, idByCode, today),
                     Failures(rows, n - 1, idByCode, today), UnreadableRows(rows, n, today),
                     FailedTargets(rows, n, idByCode, today), Failures(rows, n, idByCode, today), f);
    }
  }

  lemma OneMoreFailure(a: seq<Failure>, b: seq<Failure>, c: seq<Failure>,
                       a': seq<Failure>, b': seq<Failure>, c': seq<Failure>, f: seq<Failure>)
    requires SameElements(a, b, c) && c' == c + f
    requires (a' == a + f && b' == b) || (a' == a && b' == b + f)
    ensures SameElements(a', b', c')
  {
  }

  method ReadRows(rows: seq<Row>, today: Day) returns (parsed: seq<nat>, failed: seq<Failure>)
    ensures parsed == ParsedRows(rows, |rows|, today) && failed == UnreadableRows(rows, |rows|, today)
  {
    parsed, failed := [], [];
    for i := 0 to |rows|
      invariant parsed == ParsedRows(rows, i, today) && failed == UnreadableRows(rows, i, today)
    {
      if rows[i].Readable? && rows[i].day <= today {
        parsed := parsed + [i];
      } else {
        failed := failed + [Failure(RowNumber(i), Invalid)];
      }
    }
  }

  // How far into the file the first `k` parsed rows reach.
  function Reach(rows: seq<Row>, parsed: seq<nat>, k: nat): nat
    requires k <= |parsed|
  {
    if k == 0 then 0 else parsed[k - 1] + 1
  }

  lemma {:induction false} ParsedRowsExact(rows: seq<Row>, n: nat, today: Day)
    requires n <= |rows|
    ensures var parsed := ParsedRows(rows, n, today);
            && (forall i, j :: 0 <= i < j < |parsed| ==> parsed[i] < parsed[j])
            && (forall i :: 0 <= i < n && IsParsed(rows[i], today) ==> i in parsed)
  {
    if n > 0 {
      ParsedRowsExact(rows, n - 1, today);
    }
  }

  lemma ParsedRowsAreAll(rows: seq<Row>, today: Day, k: nat)
    requires k <= |ParsedRows(rows, |rows|, today)|
    ensures var parsed := ParsedRows(rows, |rows|, today);
            var next := if k < |parsed| then parsed[k] else |rows|;
            Reach(rows, parsed, k) <= next <= |rows|
            && forall i :: Reach(rows, parsed, k) <= i < next ==> !IsParsed(rows[i], today)
  {
    hide ParsedRows;
    ParsedRowsExact(rows, |rows|, today);
    var parsed := ParsedRows(rows, |rows|, today);
    var next := if k < |parsed| then parsed[k] else |rows|;
    forall j | 0 <= j < |parsed| ensures parsed[j] < Reach(rows, parsed, k) || next <= parsed[j] {
      if j < k {
        assert j < k - 1 ==> parsed[j] < parsed[k - 1];
      } else {
        assert k < j ==> parsed[k] < parsed[j];
      }
    }
  }

  lemma {:induction false} UnparsedRowsSkipped(rows: seq<Row>, lo: nat, hi: nat, key: Key, idByCode: map<string, Student>, today: Day)
    requires lo <= hi <= |rows| && forall i :: lo <= i < hi ==> !IsParsed(rows[i], today)
    ensures ValidEntries(rows, hi, idByCode, today) == ValidEntries(rows, lo, idByCode, today)
    ensures FailedTargets(rows, hi, idByCode, today) == FailedTargets(rows, lo, idByCode, today)
    ensures FirstRowFor(rows, hi, key, idByCode, today) == FirstRowFor(rows, lo, key, idByCode, today)
    decreases hi
  {
    if lo < hi {
      UnparsedRowsSkipped(rows, lo, hi - 1, key, idByCode, today);
    }
  }

  ghost predicate Remembers(firstRowFor: map<Key, nat>, rows: seq<Row>, n: nat, idByCode: map<string, Student>, today: Day)
    requires n <= |rows|
  {
    forall k: Key :: FirstRowFor(rows, n, k, idByCode, today) == if k in firstRowFor then Some(firstRowFor[k]) else None
  }

  lemma SkipToParsed(firstRowFor: map<Key, nat>, rows: seq<Row>, parsed: seq<nat>, k: nat, idByCode: map<string, Student>, today: Day)
    requires parsed == ParsedRows(rows, |rows|, today) && k <= |parsed|
    ensures var lo, hi := Reach(rows, parsed, k), if k < |parsed| then parsed[k] else |rows|;
            && lo <= hi <= |rows|
            && ValidEntries(rows, hi, idByCode, today) == ValidEntries(rows, lo, idByCode, today)
            && FailedTargets(rows, hi, idByCode, today) == FailedTargets(rows, lo, idByCode, today)
            && (Remembers(firstRowFor, rows, lo, idByCode, today) ==> Remembers(firstRowFor, rows, hi, idByCode, today))
  {
    ParsedRowsAreAll(rows, today, k);
    var lo, hi := Reach(rows, parsed, k), if k < |parsed| then parsed[k] else |rows|;
    forall key: Key
      ensures FirstRowFor(rows, hi, key, idByCode, today) == FirstRowFor(rows, lo, key, idByCode, today)
      ensures ValidEntries(rows, hi, idByCode, today) == ValidEntries(rows, lo, idByCode, today)
      ensures FailedTargets(rows, hi, idByCode, today) == FailedTargets(rows, lo, idByCode, today)
    {
      UnparsedRowsSkipped(rows, lo, hi, key, idByCode, today);
    }
    UnparsedRowsSkipped(rows, lo, hi, (0, 0), idByCode, today);
  }

  method ResolveRows(rows: seq<Row>, parsed: seq<nat>, idByCode: map<string, Student>, today: Day)
    returns (valid: seq<Entry>, failed: seq<Failure>)
    requires parsed == ParsedRows(rows, |rows|, today)
    ensures valid == ValidEntries(rows, |rows|, idByCode, today)
    ensures failed == FailedTargets(rows, |rows|, idByCode, today)
  {
    hide ParsedRows, FirstRowFor;
    valid, failed := [], [];
    var firstRowFor: map<Key, nat> := map[];
    NothingRemembered(rows, idByCode, today);
    for k := 0 to |parsed|
      invariant Reach(rows, parsed, k) <= |rows|
      invariant valid == ValidEntries(rows, Reach(rows, parsed, k), idByCode, today)
      invariant failed == FailedTargets(rows, Reach(rows, parsed, k), idByCode, today)
      invariant Remembers(firstRowFor, rows, Reach(rows, parsed, k), idByCode, today)
    {
      SkipToParsed(firstRowFor, rows, parsed, k, idByCode, today);
      var i := parsed[k];
      var row := rows[i];
      if row.code !in idByCode {
        failed := failed + [Failure(RowNumber(i), UnknownCode)];
        NothingNew(firstRowFor, rows, i, idByCode, today);
      } else {
        var key := (idByCode[row.code], row.day);
        if key in firstRowFor {
          failed := failed + [Failure(RowNumber(i), DuplicateOf(RowNumber(firstRowFor[key])))];
          NothingNew(firstRowFor, rows, i, idByCode, today);
        } else {
          NewFirstRow(firstRowFor, rows, i, idByCode, today);
          firstRowFor := firstRowFor[key := i];
          valid := valid + [Entry(key, row.status)];
        }
      }
    }
    SkipToParsed(firstRowFor, rows, parsed, |parsed|, idByCode, today);
  }

  lemma NothingRemembered(rows: seq<Row>, idByCode: map<string, Student>, today: Day)
    ensures Remembers(map[], rows, 0, idByCode, today)
  {
  }

  lemma NothingNew(firstRowFor: map<Key, nat>, rows: seq<Row>, i: nat, idByCode: map<string, Student>, today: Day)
    requires i < |rows| && Remembers(firstRowFor, rows, i, idByCode, today)
    requires var t := Target(rows[i], idByCode, today); t.Some? ==> t.value in firstRowFor
    ensures Remembers(firstRowFor, rows, i + 1, idByCode, today)
  {
  }

  lemma NewFirstRow(firstRowFor: map<Key, nat>, rows: seq<Row>, i: nat, idByCode: map<string, Student>, today: Day)
    requires i < |rows| && Remembers(firstRowFor, rows, i, idByCode, today)
    requires var t := Target(rows[i], idByCode, today); t.Some? && t.value !in firstRowFor
    ensures Remembers(firstRowFor[Target(rows[i], idByCode, today).value := i], rows, i + 1, idByCode, today)
  {
  }

  method ImportAttendance(store: Store, rows: seq<Row>, idByCode: map<string, Student>, dryRun: bool, now: int)
    returns (summary: Summary)
    modifies store
    ensures (store.Rows(), summary) == Import(old(store.Rows()), rows, idByCode, dryRun, now, store.cfg)
    ensures store.Mem() == old(store.Mem())
  {
    hide ValidEntries, Failures, FailedTargets, ToWrite, CountNew, SortByRow, UnreadableRows, ParsedRows;
    var today := SchoolDay(now, store.cfg.zone);
    var parsed, failed := ReadRows(rows, today);
    var valid, failedTargets := ResolveRows(rows, parsed, idByCode, today);
    failed := failed + failedTargets;
    var toWrite := ToWrite(store.records, valid);
    ToWriteIsPart(store.records, valid);
    var created := CountNew(toWrite, store.records);
    FailuresAreSorted(rows, failed, idByCode, today);
    summary := Summary(dryRun, created, |toWrite| - created, |valid| - |toWrite|, SortByRow(failed));
    if dryRun {
      return;
    }
    store.UpsertRecords(toWrite, now);
  }

  lemma FailuresAreSorted(rows: seq<Row>, failed: seq<Failure>, idByCode: map<string, Student>, today: Day)
    requires failed == UnreadableRows(rows, |rows|, today) + FailedTargets(rows, |rows|, idByCode, today)
    ensures SortByRow(failed) == Failures(rows, |rows|, idByCode, today)
  {
    TwoPassesFindAll(rows, |rows|, idByCode, today);
    assert multiset(failed) == multiset(Failures(rows, |rows|, idByCode, today));
    SortByRowExact(failed);
    FailuresInOrder(rows, |rows|, idByCode, today);
    SortedIsUnique(SortByRow(failed), Failures(rows, |rows|, idByCode, today));
  }
}
