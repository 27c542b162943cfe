/**
 * create_attendance_table: the database is abstracted as the enrollment
 * relation and the attendance tables, each a set of (rollno, subject_code)
 * rows. The guarded INSERT IGNORE ... SELECT adds a row only when the pair
 * is enrolled and not yet present, and the roll numbers whose insert
 * affected no row are reported as skipped.
 */
module Attendance {
  import opened Text
  import opened Results
  import opened SubjectCode
  import opened RollnoFile

  /** A (rollno, subject_code) row, in student_subject_enrollment or in an attendance table. */
  datatype Enrollment = Enrollment(rollno: string, subjectCode: string)

  /** The rows of the attendance table after a run, and the roll numbers reported as skipped. */
  datatype SeedOutcome = SeedOutcome(rows: set<Enrollment>, skipped: seq<string>)

  /**
   * One pass of the loop body. The roll number's row is added, and nothing
   * is reported, exactly when it is enrolled and not yet present; otherwise
   * the table is unchanged and the roll number is reported. The foreign key
   * is kept either way.
   */
  function InsertStep(enrolled: set<Enrollment>, subject: string, o: SeedOutcome, rollno: string): (r: SeedOutcome)
    ensures o.rows <= r.rows && r.rows - o.rows <= {Enrollment(rollno, subject)}
    ensures r.rows == o.rows <==> r.skipped == o.skipped + [rollno]
    ensures r.rows != o.rows ==> r.skipped == o.skipped
    ensures o.rows <= enrolled ==> r.rows <= enrolled
    ensures r.rows != o.rows <==> Enrollment(rollno, subject) in enrolled && Enrollment(rollno, subject) !in o.rows
  {
    var row := Enrollment(rollno, subject);
    if row in enrolled && row !in o.rows then SeedOutcome(o.rows + {row}, o.skipped)
    else SeedOutcome(o.rows, o.skipped + [rollno])
  }

  /**
   * The effect of the insert loop on a table holding present: the rows it
   * ends with and the skipped roll numbers. Rows already there stay there.
   */
  function Seed(enrolled: set<Enrollment>, subject: string, present: set<Enrollment>, rollnos: seq<string>): (o: SeedOutcome)
    ensures present <= o.rows
    ensures |o.skipped| <= |rollnos|
    decreases |rollnos|
  {
    if rollnos == [] then SeedOutcome(present, [])
    else
      var n := |rollnos| - 1;
      InsertStep(enrolled, subject, Seed(enrolled, subject, present, rollnos[..n]), rollnos[n])
  }

  /** The rows the list asks for that the enrollment relation allows. */
  function Requested(enrolled: set<Enrollment>, subject: string, rollnos: seq<string>): set<Enrollment> {
    set r | r in rollnos && Enrollment(r, subject) in enrolled :: Enrollment(r, subject)
  }

  /**
   * After the loop the table holds what it held before plus one row for each
   * listed roll number enrolled in the subject, and nothing else.
   */
  lemma {:induction false} SeedRows(enrolled: set<Enrollment>, subject: string, present: set<Enrollment>, rollnos: seq<string>)
    ensures Seed(enrolled, subject, present, rollnos).rows == present + Requested(enrolled, subject, rollnos)
    decreases |rollnos|
  {
    if rollnos != [] {
      var n := |rollnos| - 1;
      SeedRows(enrolled, subject, present, rollnos[..n]);
      assert rollnos == rollnos[..n] + [rollnos[n]];
      var before := Requested(enrolled, subject, rollnos[..n]);
      var after := Requested(enrolled, subject, rollnos);
      var row := Enrollment(rollnos[n], subject);
      assert after == before + (if row in enrolled then {row} else {}) by {
        forall x | x in after ensures x in before + (if row in enrolled then {row} else {}) {
          var r :| r in rollnos && Enrollment(r, subject) in enrolled && x == Enrollment(r, subject);
          if r != rollnos[n] {
            assert r in rollnos[..n];
          }
        }
      }
    }
  }

  /**
   * The foreign key holds afterwards: when every row of the table is an
   * enrolled pair before the loop, every row is one after it.
   */
  lemma {:induction false} SeedKeepsForeignKey(enrolled: set<Enrollment>, subject: string, present: set<Enrollment>, rollnos: seq<string>)
    requires present <= enrolled
    ensures Seed(enrolled, subject, present, rollnos).rows <= enrolled
    ensures forall row :: row in Seed(enrolled, subject, present, rollnos).rows - present ==>
      row.subjectCode == subject && row.rollno in rollnos
  {
    SeedRows(enrolled, subject, present, rollnos);
  }

  /**
   * Whether the i-th listed roll number adds a row: it is enrolled, its row
   * was not in the table beforehand, and it does not occur earlier in the list.
   */
  predicate AddsRow(enrolled: set<Enrollment>, subject: string, present: set<Enrollment>, rollnos: seq<string>, i: nat)
    requires i < |rollnos|
  {
    var row := Enrollment(rollnos[i], subject);
    row in enrolled && row !in present && rollnos[i] !in rollnos[..i]
  }

  /** The listed roll numbers, in list order, that add no row. */
  function SkippedRef(enrolled: set<Enrollment>, subject: string, present: set<Enrollment>, rollnos: seq<string>): seq<string>
    decreases |rollnos|
  {
    if rollnos == [] then []
    else
      var n := |rollnos| - 1;
      SkippedRef(enrolled, subject, present, rollnos[..n])
        + (if AddsRow(enrolled, subject, present, rollnos, n) then [] else [rollnos[n]])
  }

  /**
   * invalid_rollnos is, in list order, every roll number that is not
   * enrolled, whose row was already in the table, or that repeats an earlier
   * entry of the list: the insert of each of these affects no row.
   */
  lemma {:induction false} SeedSkipped(enrolled: set<Enrollment>, subject: string, present: set<Enrollment>, rollnos: seq<string>)
    ensures Seed(enrolled, subject, present, rollnos).skipped == SkippedRef(enrolled, subject, present, rollnos)
    decreases |rollnos|
  {
    if rollnos != [] {
      var n := |rollnos| - 1;
      SeedSkipped(enrolled, subject, present, rollnos[..n]);
      SeedRows(enrolled, subject, present, rollnos[..n]);
      var row := Enrollment(rollnos[n], subject);
      assert row in Requested(enrolled, subject, rollnos[..n]) <==> row in enrolled && rollnos[n] in rollnos[..n];
    }
  }

  /** Each listed roll number either adds exactly one new row or is reported. */
  lemma {:induction false} SeedCount(enrolled: set<Enrollment>, subject: string, present: set<Enrollment>, rollnos: seq<string>)
    ensures var o := Seed(enrolled, subject, present, rollnos);
      |o.skipped| + |o.rows - present| == |rollnos|
    decreases |rollnos|
  {
    if rollnos != [] {
      var n := |rollnos| - 1;
      SeedCount(enrolled, subject, present, rollnos[..n]);
      var o := Seed(enrolled, subject, present, rollnos[..n]);
      var row := Enrollment(rollnos[n], subject);
      if row in enrolled && row !in o.rows {
        assert (o.rows + {row}) - present == (o.rows - present) + {row};
      }
    }
  }

  /** When every enrolled listed pair is already present, the loop adds nothing and reports every entry. */
  lemma {:induction false} SeedNothingNew(enrolled: set<Enrollment>, subject: string, present: set<Enrollment>, rollnos: seq<string>)
    requires Requested(enrolled, subject, rollnos) <= present
    ensures Seed(enrolled, subject, present, rollnos) == SeedOutcome(present, rollnos)
    decreases |rollnos|
  {
    if rollnos != [] {
      var n := |rollnos| - 1;
      assert Requested(enrolled, subject, rollnos[..n]) <= Requested(enrolled, subject, rollnos) by {
        forall x | x in Requested(enrolled, subject, rollnos[..n]) ensures x in Requested(enrolled, subject, rollnos) {
          var r :| r in rollnos[..n] && Enrollment(r, subject) in enrolled && x == Enrollment(r, subject);
          assert r in rollnos;
        }
      }
      SeedNothingNew(enrolled, subject, present, rollnos[..n]);
      assert rollnos[n] in rollnos;
      assert rollnos[..n] + [rollnos[n]] == rollnos;
    }
  }

  /**
   * Running the script a second time with the same list leaves the table as
   * it is and reports every roll number as skipped, enrolled or not.
   */
  lemma {:induction false} SeedRerun(enrolled: set<Enrollment>, subject: string, present: set<Enrollment>, rollnos: seq<string>)
    ensures var first := Seed(enrolled, subject, present, rollnos);
      Seed(enrolled, subject, first.rows, rollnos) == SeedOutcome(first.rows, rollnos)
  {
    SeedRows(enrolled, subject, present, rollnos);
    SeedNothingNew(enrolled, subject, Seed(enrolled, subject, present, rollnos).rows, rollnos);
  }

  /** The database seen through the cursor. */
  class Database {
    /** student_subject_enrollment; the script never changes it. */
    const enrollment: set<Enrollment>
    /** The attendance tables, by name. */
    var tables: map<string, set<Enrollment>>

    /** The foreign key of every attendance table: each row is an enrolled pair. */
    ghost predicate Valid()
      reads this
    {
      forall name :: name in tables ==> tables[name] <= enrollment
    }

    constructor (enrollment: set<Enrollment>, tables: map<string, set<Enrollment>>)
      requires forall name :: name in tables ==> tables[name] <= enrollment
      ensures Valid() && this.enrollment == enrollment && this.tables == tables
    {
      this.enrollment := enrollment;
      this.tables := tables;
    }

    /** CREATE TABLE IF NOT EXISTS: an absent table is created empty, an existing one is kept as it is. */
    method CreateTableIfNotExists(name: string)
      requires Valid()
      modifies this
      ensures Valid()
      ensures tables == if name in old(tables) then old(tables) else old(tables)[name := {}]
    {
      if name !in tables {
        tables := tables[name := {}];
      }
    }

    /**
     * INSERT IGNORE INTO name SELECT rollno, subject FROM enrollment WHERE
     * ...: one row is affected when the pair is enrolled and not yet in the
     * table, none otherwise; the affected count is cursor.rowcount.
     */
    method InsertIgnoreSelect(name: string, rollno: string, subject: string) returns (rowcount: nat)
      requires Valid() && name in tables
      modifies this
      ensures Valid()
      ensures var row := Enrollment(rollno, subject);
        && rowcount == (if row in enrollment && row !in old(tables)[name] then 1 else 0)
        && tables == old(tables)[name := old(tables)[name] + (if rowcount == 1 then {row} else {})]
    {
      var row := Enrollment(rollno, subject);
      if row in enrollment && row !in tables[name] {
        tables := tables[name := tables[name] + {row}];
        rowcount := 1;
        assert tables == old(tables)[name := old(tables)[name] + {row}];
      } else {
        rowcount := 0;
        assert tables == old(tables);
        assert old(tables)[name] + {} == old(tables)[name];
        assert old(tables)[name := old(tables)[name]] == old(tables);
      }
    }
  }

  /** The loop of create_attendance_table over the roll numbers. */
  method SeedAttendance(db: Database, table: string, subject: string, rollnos: seq<string>) returns (invalid: seq<string>)
    requires db.Valid() && table in db.tables
    modifies db
    ensures db.Valid()
    ensures var o := Seed(db.enrollment, subject, old(db.tables)[table], rollnos);
      db.tables == old(db.tables)[table := o.rows] && invalid == o.skipped
  {
    invalid := [];
    var i := 0;
    while i < |rollnos|
      invariant 0 <= i <= |rollnos|
      invariant db.Valid() && table in db.tables
      invariant var o := Seed(db.enrollment, subject, old(db.tables)[table], rollnos[..i]);
        db.tables == old(db.tables)[table := o.rows] && invalid == o.skipped
    {
      ghost var o := Seed(db.enrollment, subject, old(db.tables)[table], rollnos[..i]);
      var r := rollnos[i];
      var rowcount := db.InsertIgnoreSelect(table, r, subject);
      if rowcount == 0 {
        invalid := invalid + [r];
      }
      assert rollnos[..i + 1][..i] == rollnos[..i];
      ghost var next := InsertStep(db.enrollment, subject, o, r);
      assert Seed(db.enrollment, subject, old(db.tables)[table], rollnos[..i + 1]) == next;
      assert next.rows == o.rows + (if rowcount == 1 then {Enrollment(r, subject)} else {});
      assert db.tables == old(db.tables)[table := next.rows];
      i := i + 1;
    }
    assert rollnos[..i] == rollnos;
  }

  /** The existing rows of a table, none when the table does not exist yet. */
  function ExistingRows(tables: map<string, set<Enrollment>>, name: string): set<Enrollment> {
    if name in tables then tables[name] else {}
  }

  /** CREATE TABLE IF NOT EXISTS followed by the insert loop. */
  method FillTable(db: Database, table: string, subject: string, rollnos: seq<string>) returns (invalid: seq<string>)
    requires db.Valid()
    modifies db
    ensures db.Valid()
    ensures var o := Seed(db.enrollment, subject, ExistingRows(old(db.tables), table), rollnos);
      db.tables == old(db.tables)[table := o.rows] && invalid == o.skipped
  {
    db.CreateTableIfNotExists(table);
    ghost var created := db.tables;
    invalid := SeedAttendance(db, table, subject, rollnos);
    assert created[table] == ExistingRows(old(db.tables), table);
    assert created[table := Seed(db.enrollment, subject, created[table], rollnos).rows]
      == old(db.tables)[table := Seed(db.enrollment, subject, created[table], rollnos).rows];
  }

  /** What a successful run reports: the table it filled and the skipped roll numbers. */
  datatype Report = Report(tableName: string, invalidRollnos: seq<string>)

  /**
   * create_attendance_table with the file given by its contents. The subject
   * code is checked first, then the file is read, and only then is the
   * database touched; either error leaves the database unchanged.
   */
  method CreateAttendanceTable(db: Database, path: string, subjectCode: string, lines: seq<string>, rows: seq<Row>)
    returns (result: Result<Report>)
    requires db.Valid()
    modifies db
    ensures db.Valid()
    ensures SanitizeSubjectCode(subjectCode).Err? ==>
      result == Err(InvalidSubjectCode) && db.tables == old(db.tables)
    ensures SanitizeSubjectCode(subjectCode).Ok? && FileRollnos(path, lines, rows).Err? ==>
      result == Err(UnsupportedFileType) && db.tables == old(db.tables)
    ensures SanitizeSubjectCode(subjectCode).Ok? && FileRollnos(path, lines, rows).Ok? ==>
      var code := SanitizeSubjectCode(subjectCode).value;
      var name := TableName(code);
      var o := Seed(db.enrollment, code, ExistingRows(old(db.tables), name), FileRollnos(path, lines, rows).value);
      result == Ok(Report(name, o.skipped)) && db.tables == old(db.tables)[name := o.rows]
  {
    var code := SanitizeSubjectCode(subjectCode);
    if code.Err? {
      return Err(code.error);
    }
    var tableName := TableName(code.value);
    var rollnos := ReadRollnosFromFile(path, lines, rows);
    if rollnos.Err? {
      return Err(rollnos.error);
    }
    var invalid := FillTable(db, tableName, code.value, rollnos.value);
    result := Ok(Report(tableName, invalid));
  }
}
