# Attendance table provisioning, modelled in Dafny

`Backend/create_attendance_table.py` is an administrative script. It takes a
subject code and a file of student roll numbers. It validates the code,
names the table `attendance_<CODE>`, creates that table if it is missing,
and seeds it with the listed roll numbers that are enrolled in the subject.
It then reports the roll numbers that it skipped.

This project models the parts of that script that compute something:

- `Text.dfy`: Python's `str.strip()`, `str.upper()` and `str.lower()` on ASCII.
- `SubjectCode.dfy`: `SUBJECT_RE` and `sanitize_subject_code`. This includes
  the rule that `$` also matches before a final newline; after `strip()` that
  rule can never apply. It also covers the table name, the foreign-key
  constraint name and their backtick quoting in the SQL text.
- `RollnoFile.dfy`: `read_rollnos_from_file`. The extension rule of
  `os.path.splitext` on POSIX paths is modelled exactly, then lowercased and
  dispatched. The `.txt` comprehension is a function. The `.xlsx` loop
  (`iter_rows(min_row=2)` plus `append`) is a method with a loop invariant.
  A text file is given as its lines. A workbook is given as the rows of its
  active sheet, each row a sequence of optional cell strings.
- `Attendance.dfy`: the database seen through the cursor. It is a class with
  the enrollment relation, which is constant, and a map from table name to
  the set of `(rollno, subject_code)` rows. `Valid()` is the foreign key:
  every row of an attendance table is an enrolled pair. The
  `INSERT IGNORE ... SELECT` is one method. The loop over the roll numbers is
  another. `CreateAttendanceTable` composes all the steps in the source's
  order: sanitise, then read the file, then touch the database.

The script's closing message calls the skipped roll numbers ones "not found
in Student_Subject_Enrollment". The code, however, records a roll number as
skipped whenever its insert affected zero rows. That also covers a roll
number whose row was already in the table, for example on a second run, and
a repeat of an earlier entry in the same list. The model follows the code.
`Attendance.SeedSkipped` states the exact rule, and `Attendance.SeedRerun`
shows that a second run reports every roll number.

## Model

| member | source | states |
|---|---|---|
| `Text.Upper` | Backend/create_attendance_table.py:36 | Python's `upper()` on ASCII: same length, each character is its uppercase form, and no lowercase ASCII letter remains. |
| `Text.Lower` | Backend/create_attendance_table.py:18 | Python's `lower()` on ASCII: same length, each character is its lowercase form, and no uppercase ASCII letter remains. |
| `Text.LowerIgnoresCase` | Backend/create_attendance_table.py:18 | Lowercasing an uppercased string gives the same result as lowercasing the original, so the `.lower()` of the extension ignores case. |
| `Text.Strip` | Backend/create_attendance_table.py:36 | The result is the infix of the input left after removing leading and trailing whitespace. Everything removed is whitespace, the result neither starts nor ends with whitespace, and it is empty exactly when the input is all whitespace. |
| `Text.StripUpper` | Backend/create_attendance_table.py:36 | `s.strip().upper()` is stripped, has no lowercase ASCII letter, has the stripped length, and is empty exactly when the input is all whitespace. |
| `Text.StripUpperIdempotent` | Backend/create_attendance_table.py:36 | Applying the strip-then-uppercase normalisation twice gives the same result as applying it once. |
| `SubjectCode.NoFinalNewline` | Backend/create_attendance_table.py:15 | `MatchesSubjectPattern` models `SUBJECT_RE.match` (lines 15 and 37), including `$` matching before a final newline. On a stripped string it matches exactly when the string is non-empty and every character is a letter, digit or underscore. |
| `SubjectCode.SanitizeSubjectCode` | Backend/create_attendance_table.py:35-39 | An accepted code equals the stripped, uppercased input, is non-empty, and holds only `[A-Z0-9_]`. A refused code raises the subject-code error. |
| `SubjectCode.SanitizeRejects` | Backend/create_attendance_table.py:37-38 | `SUBJECT_RE` refuses the code exactly when its normalised form is empty or contains a character outside letters, digits and underscore (both directions). |
| `SubjectCode.SanitizeIdempotent` | Backend/create_attendance_table.py:35-39 | Sanitising an accepted code's output accepts it again, unchanged. |
| `SubjectCode.TableName` | Backend/create_attendance_table.py:51 | A table name built from a code of `[A-Z0-9_]` holds only `[A-Za-z0-9_]`. |
| `SubjectCode.TableNameInjective` | Backend/create_attendance_table.py:51 | Different subject codes give different table names. |
| `SubjectCode.ConstraintName` | Backend/create_attendance_table.py:70 | A constraint name built from a table name of `[A-Za-z0-9_]` holds only `[A-Za-z0-9_]`. |
| `SubjectCode.Quoted` | Backend/create_attendance_table.py:65 | When a name holds no backtick, its backtick-quoted form has backticks only at its first and last positions. |
| `SubjectCode.SanitizedNamesCannotInject` | Backend/create_attendance_table.py:65-83 | For an accepted code, the table name and the constraint name hold only `[A-Za-z0-9_]`: no backtick, quote, semicolon, backslash or whitespace. When quoted, each has backticks only at its two ends. |
| `RollnoFile.LastIndexOf` | Backend/create_attendance_table.py:18 | Python's `rfind`: the result is -1 or an index holding the character, and no later index holds it. |
| `RollnoFile.SplitExt` | Backend/create_attendance_table.py:18 | The extension is empty, or it is a suffix of the path that starts with `.` and holds no further `.` and no `/`. |
| `RollnoFile.SplitExtOfName` | Backend/create_attendance_table.py:18 | For `dir + stem + "." + e`, where the stem has a non-dot character and neither the stem nor `e` holds `/`, and `e` holds no `.`, the extension is `"." + e`. |
| `RollnoFile.KindOfName` | Backend/create_attendance_table.py:18-31 | `Extension` lowercases the extension and `Kind` dispatches on it. Such a file is read as text when `e` lowercases to `txt`, as a workbook when it lowercases to `xlsx`, and is refused otherwise. |
| `RollnoFile.SplitExtUpper` | Backend/create_attendance_table.py:18 | The extension of an uppercased path is the uppercased extension. |
| `RollnoFile.KindIgnoresCase` | Backend/create_attendance_table.py:18-31 | For every path, uppercasing it does not change which reader is chosen, or whether it is refused. |
| `RollnoFile.FilterMap` | Backend/create_attendance_table.py:21-29 | Both readers keep some of their items and map each kept item to one entry. There are never more entries than items. |
| `RollnoFile.FilterMapAppend` | Backend/create_attendance_table.py:21-29 | Keep-and-map over a concatenation gives the results of the two parts joined in order. |
| `RollnoFile.FilterMapMember` | Backend/create_attendance_table.py:21-29 | A string is an entry exactly when it is the image of some kept item (both directions). |
| `RollnoFile.FilterMapLength` | Backend/create_attendance_table.py:21-29 | There is exactly one entry per kept item. |
| `RollnoFile.TxtRollnos` | Backend/create_attendance_table.py:23 | The `.txt` reader gives one entry per non-blank line. Each entry is non-empty, stripped and has no lowercase letter. |
| `RollnoFile.TxtRollnosAppend` | Backend/create_attendance_table.py:23 | The `.txt` result of a concatenation of lines is the two results joined in order. |
| `RollnoFile.TxtRollnosOfLine` | Backend/create_attendance_table.py:23 | A single line gives `[]` if it is blank and its normalised form otherwise. |
| `RollnoFile.TxtRollnosEntries` | Backend/create_attendance_table.py:23 | Every `.txt` entry is non-empty, stripped and has no lowercase letter. A string is an entry exactly when it is the normalised form of some non-blank line. |
| `RollnoFile.DataRows` | Backend/create_attendance_table.py:27 | `iter_rows(min_row=2)`: every row except the first, in order. |
| `RollnoFile.SheetRollnos` | Backend/create_attendance_table.py:27-29 | The `.xlsx` reader gives one entry per data row where `IsUsedRow` holds (`row and row[0]`: the row and its first cell are non-empty). Each entry is `RowEntry`, the first cell stripped and uppercased: stripped, with no lowercase letter, possibly empty. |
| `RollnoFile.SheetRollnosEntries` | Backend/create_attendance_table.py:27-29 | A string is an `.xlsx` entry exactly when it is the normalised first cell of some row after the header whose first cell is present and non-empty. |
| `RollnoFile.SheetRollnosAppend` | Backend/create_attendance_table.py:27-29 | Whatever the header row holds, data rows are read in order: the results of two blocks of rows concatenate. |
| `RollnoFile.BlankCellGivesEmptyEntry` | Backend/create_attendance_table.py:23-29 | A whitespace-only first cell yields the empty roll number `""`. The same text as a line of a `.txt` file yields nothing. |
| `RollnoFile.ReadSheetRollnos` | Backend/create_attendance_table.py:24-29 | The append loop over `iter_rows(min_row=2)` returns exactly the sheet's roll-number list. |
| `RollnoFile.FileRollnos` | Backend/create_attendance_table.py:17-33 | The file-type error happens exactly when the extension is neither `.txt` nor `.xlsx`. Otherwise the result is the list of the matching reader. The choice of reader is the same for the path uppercased. |
| `RollnoFile.FileRollnosIgnoresCase` | Backend/create_attendance_table.py:17-33 | Two paths that differ only in letter case give the same result. |
| `RollnoFile.ReadRollnosFromFile` | Backend/create_attendance_table.py:17-33 | The dispatching reader returns `FileRollnos` of its arguments. |
| `Attendance.InsertStep` | Backend/create_attendance_table.py:82-94 | One pass of the loop adds the roll number's row and reports nothing exactly when the pair is enrolled and not yet present; otherwise it leaves the table unchanged and reports the roll number. It never adds any other row, and it keeps the foreign key. |
| `Attendance.Seed` | Backend/create_attendance_table.py:88-94 | The loop never removes a row that was already present, and it skips at most as many roll numbers as were listed. |
| `Attendance.SeedRows` | Backend/create_attendance_table.py:82-94 | After the loop the table holds its earlier rows plus `(r, subject)` for each listed `r` enrolled in the subject, and nothing else. |
| `Attendance.SeedKeepsForeignKey` | Backend/create_attendance_table.py:70-94 | If every earlier row is enrolled, then every row afterwards is enrolled. Each new row carries this subject and a listed roll number. |
| `Attendance.SeedSkipped` | Backend/create_attendance_table.py:88-94 | `invalid_rollnos` lists, in input order, exactly the roll numbers that add no row. These are the ones not enrolled, the ones whose row was already present, and repeats of an earlier entry. |
| `Attendance.SeedCount` | Backend/create_attendance_table.py:89-94 | Each listed roll number either adds exactly one new row or is skipped: skipped count plus new rows equals the list length. |
| `Attendance.SeedNothingNew` | Backend/create_attendance_table.py:83-94 | When every enrolled listed pair is already in the table, the loop leaves the table unchanged and skips every listed roll number. |
| `Attendance.SeedRerun` | Backend/create_attendance_table.py:92-94 | Running the loop a second time on its own result changes nothing and reports the whole list, enrolled or not. |
| `Attendance.Database.constructor` | Backend/create_attendance_table.py:70-74 | A database starts with the given enrollment relation and tables, and its invariant `Valid()` holds: the foreign key from every attendance table to the enrollment relation. |
| `Attendance.Database.CreateTableIfNotExists` | Backend/create_attendance_table.py:64-77 | A missing table is created empty. An existing table keeps its rows. The foreign key keeps holding. |
| `Attendance.Database.InsertIgnoreSelect` | Backend/create_attendance_table.py:82-91 | One row is affected, and the pair added, exactly when the pair is enrolled and not yet present. Otherwise zero rows are affected and the table is unchanged. No other table changes. |
| `Attendance.SeedAttendance` | Backend/create_attendance_table.py:88-94 | The loop leaves the table at `Seed(...).rows` and `invalid_rollnos` at `Seed(...).skipped`. The foreign key keeps holding and no other table changes. |
| `Attendance.FillTable` | Backend/create_attendance_table.py:77-94 | Creating the table and running the loop starts from `ExistingRows`: the table's rows, or none when the table is new. |
| `Attendance.CreateAttendanceTable` | Backend/create_attendance_table.py:49-94 | A refused subject code gives its error. Otherwise an unsupported file gives the file-type error. Either error leaves the database unchanged. Otherwise the `attendance_<CODE>` table is seeded as `Seed` says, and the skipped list is returned. |

## Left out

- `Attendance.CreateAttendanceTable`: an `attendance_<CODE>` table that already exists is assumed to have the script's primary key and foreign key (`requires db.Valid()`, and its rows form a set). `CREATE TABLE IF NOT EXISTS` does not check the schema of an existing table, so a table with another schema is not modelled.
- Loading credentials (`load_dotenv`, `os.getenv`) and `get_db_connection`: these are process environment and network I/O.
- `ALTER TABLE ... ENGINE = InnoDB`, the column types, the `created_at` default and the cascading `ON DELETE` and `ON UPDATE` rules. These are database-engine behaviour. Of the `CREATE TABLE`, only two things are modelled: the table exists afterwards, and its foreign key holds (`Valid()`).
- Opening the file and loading the workbook with `openpyxl`: the file is given as its lines, or as the rows of its active sheet.
- `str(row[0])` on non-string cells. Cells are optional strings, so a numeric `0` cell, which Python treats as falsy, is not modelled.
- `Attendance.Database.InsertIgnoreSelect`: compares strings exactly. MySQL's collation would also match roll numbers that differ in case or in trailing spaces. The `VARCHAR(20)` column length and MySQL's 64-character limit on identifiers are not modelled.
- `Text.Strip`: ASCII whitespace only. Python's `strip()` also removes non-ASCII whitespace such as U+00A0.
- `Text.Upper`: ASCII letters only. Python's `upper()` also maps non-ASCII letters, and some of them to ASCII (for example `ı` to `I`).
- `RollnoFile.SplitExt`: POSIX paths only, with `/` as the only separator.
- Printing, `conn.commit()`, closing the cursor and connection, and the `except` handlers that print database errors. A failure inside the `try` block is not modelled.
- The `input()` prompts of the `__main__` block and their `.strip()`.
