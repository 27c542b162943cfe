/**
 * read_rollnos_from_file: the extension picks the reader, and each reader
 * normalises the roll numbers it finds. The file itself is abstracted: a
 * text file is the sequence of its lines, a workbook the sequence of the
 * active sheet's rows, each row a sequence of optional cell strings.
 */
module RollnoFile {
  import opened Text
  import opened Results

  type Row = seq<Option<string>>

  datatype FileKind = TextFile | Workbook | Unsupported

  /** The index of the last c in s, or -1 (Python's str.rfind). */
  function LastIndexOf(s: string, c: char): (r: int)
    ensures -1 <= r < |s|
    ensures r >= 0 ==> s[r] == c
    ensures forall k :: r < k < |s| ==> s[k] != c
  {
    if s == [] then -1
    else if s[|s| - 1] == c then |s| - 1
    else LastIndexOf(s[..|s| - 1], c)
  }

  /**
   * The extension os.path.splitext gives for a POSIX path: from the last dot
   * of the base name, unless only dots precede that dot in the base name.
   */
  function SplitExt(p: string): (e: string)
    ensures |e| <= |p| && (e == [] || (e[0] == '.' && e == p[|p| - |e|..]))
    ensures forall k :: 0 <= k < |e| ==> e[k] != '/' && (k > 0 ==> e[k] != '.')
  {
    var sep := LastIndexOf(p, '/');
    var dot := LastIndexOf(p, '.');
    if dot > sep && exists k :: sep < k < dot && p[k] != '.' then p[dot..] else ""
  }

  /** `os.path.splitext(filepath)[1].lower()` */
  function Extension(p: string): string {
    Lower(SplitExt(p))
  }

  function Kind(p: string): FileKind {
    var ext := Extension(p);
    if ext == ".txt" then TextFile
    else if ext == ".xlsx" then Workbook
    else Unsupported
  }

  /**
   * A file name whose base name has something other than dots before its
   * last dot has the text after that dot as its extension.
   */
  lemma {:induction false} SplitExtOfName(dir: string, stem: string, e: string)
    requires '/' !in stem && '/' !in e && '.' !in e
    requires exists k :: 0 <= k < |stem| && stem[k] != '.'
    ensures SplitExt(dir + stem + "." + e) == "." + e
  {
    var p := dir + stem + "." + e;
    var d := |dir| + |stem|;
    assert p[d] == '.';
    forall k | d < k < |p| ensures p[k] != '.' {
      assert p[k] == e[k - d - 1];
    }
    assert LastIndexOf(p, '.') == d;
    forall k | |dir| <= k < |p| ensures p[k] != '/' {
      if k < d {
        assert p[k] == stem[k - |dir|];
      } else if k > d {
        assert p[k] == e[k - d - 1];
      }
    }
    var k0 :| 0 <= k0 < |stem| && stem[k0] != '.';
    assert p[|dir| + k0] == stem[k0];
    assert p[d..] == "." + e;
  }

  /** The reader is chosen from the extension regardless of its case. */
  lemma {:induction false} KindOfName(dir: string, stem: string, e: string)
    requires '/' !in stem && '/' !in e && '.' !in e
    requires exists k :: 0 <= k < |stem| && stem[k] != '.'
    ensures Kind(dir + stem + "." + e) ==
      if Lower(e) == "txt" then TextFile
      else if Lower(e) == "xlsx" then Workbook
      else Unsupported
  {
    SplitExtOfName(dir, stem, e);
    var ext := Lower("." + e);
    assert ext == "." + Lower(e);
    assert ext[1..] == Lower(e);
    assert ext == ".txt" <==> Lower(e) == "txt";
    assert ext == ".xlsx" <==> Lower(e) == "xlsx";
  }

  /** Upper-casing a string moves no '.' or '/' (nor any other non-letter). */
  lemma {:induction false} LastIndexOfUpper(s: string, c: char)
    requires !IsUpper(c) && !IsLower(c)
    ensures LastIndexOf(Upper(s), c) == LastIndexOf(s, c)
    decreases |s|
  {
    if s != [] {
      var n := |s| - 1;
      assert Upper(s)[..n] == Upper(s[..n]);
      assert Upper(s)[n] == c <==> s[n] == c by {
        assert Upper(s)[n] == UpperChar(s[n]);
      }
      LastIndexOfUpper(s[..n], c);
    }
  }

  /** The extension of an upper-cased path is the upper-cased extension. */
  lemma {:induction false} SplitExtUpper(p: string)
    ensures SplitExt(Upper(p)) == Upper(SplitExt(p))
  {
    LastIndexOfUpper(p, '/');
    LastIndexOfUpper(p, '.');
    var sep := LastIndexOf(p, '/');
    var dot := LastIndexOf(p, '.');
    var u := Upper(p);
    assert forall k :: sep < k < dot ==> (u[k] != '.' <==> p[k] != '.');
    if dot > sep {
      assert u[dot..] == Upper(p[dot..]);
    }
  }

  /** The reader chosen for a path does not depend on the case of its letters. */
  lemma {:induction false} KindIgnoresCase(p: string)
    ensures Kind(Upper(p)) == Kind(p)
  {
    SplitExtUpper(p);
    LowerIgnoresCase(SplitExt(p));
  }

  /**
   * The results of both readers arise the same way: keep the items that pass
   * keep, in order, and map each through f.
   */
  function FilterMap<T>(xs: seq<T>, keep: T -> bool, f: T -> string): (r: seq<string>)
    ensures |r| <= |xs|
    decreases |xs|
  {
    if xs == [] then []
    else
      var n := |xs| - 1;
      FilterMap(xs[..n], keep, f) + (if keep(xs[n]) then [f(xs[n])] else [])
  }

  function CountKept<T>(xs: seq<T>, keep: T -> bool): nat
    decreases |xs|
  {
    if xs == [] then 0
    else CountKept(xs[..|xs| - 1], keep) + (if keep(xs[|xs| - 1]) then 1 else 0)
  }

  /** Filtering a concatenation filters each part, keeping their order. */
  lemma {:induction false} FilterMapAppend<T>(xs: seq<T>, ys: seq<T>, keep: T -> bool, f: T -> string)
    ensures FilterMap(xs + ys, keep, f) == FilterMap(xs, keep, f) + FilterMap(ys, keep, f)
    decreases |ys|
  {
    if ys == [] {
      assert xs + ys == xs;
    } else {
      var n := |ys| - 1;
      assert (xs + ys)[..|xs + ys| - 1] == xs + ys[..n];
      FilterMapAppend(xs, ys[..n], keep, f);
    }
  }

  /** One entry per kept item. */
  lemma {:induction false} FilterMapLength<T>(xs: seq<T>, keep: T -> bool, f: T -> string)
    ensures |FilterMap(xs, keep, f)| == CountKept(xs, keep)
    decreases |xs|
  {
    if xs != [] {
      FilterMapLength(xs[..|xs| - 1], keep, f);
    }
  }

  /** The entries are exactly the images of the kept items. */
  lemma {:induction false} FilterMapMember<T>(xs: seq<T>, keep: T -> bool, f: T -> string, x: string)
    ensures x in FilterMap(xs, keep, f) <==> exists i :: 0 <= i < |xs| && keep(xs[i]) && f(xs[i]) == x
    decreases |xs|
  {
    if xs != [] {
      var n := |xs| - 1;
      FilterMapMember(xs[..n], keep, f, x);
      if exists i :: 0 <= i < n && keep(xs[..n][i]) && f(xs[..n][i]) == x {
        var i :| 0 <= i < n && keep(xs[..n][i]) && f(xs[..n][i]) == x;
        assert xs[i] == xs[..n][i];
      }
      if exists i :: 0 <= i < |xs| && keep(xs[i]) && f(xs[i]) == x {
        var i :| 0 <= i < |xs| && keep(xs[i]) && f(xs[i]) == x;
        if i < n {
          assert xs[..n][i] == xs[i];
        }
      }
    }
  }

  // ---------------------------------------------------------------- .txt

  /** A line counts when it is not blank after stripping. */
  predicate IsNonBlank(line: string) {
    Strip(line) != []
  }

  /**
   * `[line.strip().upper() for line in f if line.strip()]`: one entry per
   * non-blank line, each non-empty, without surrounding whitespace and
   * without lower-case letters.
   */
  function TxtRollnos(lines: seq<string>): (r: seq<string>)
    ensures |r| == CountKept(lines, IsNonBlank)
    ensures forall j :: 0 <= j < |r| ==> r[j] != [] && IsStripped(r[j]) && NoLower(r[j])
  {
    var r := FilterMap(lines, IsNonBlank, StripUpper);
    FilterMapLength(lines, IsNonBlank, StripUpper);
    assert forall j :: 0 <= j < |r| ==> r[j] != [] && IsStripped(r[j]) && NoLower(r[j]) by {
      forall j | 0 <= j < |r| ensures r[j] != [] && IsStripped(r[j]) && NoLower(r[j]) {
        FilterMapMember(lines, IsNonBlank, StripUpper, r[j]);
        var i :| 0 <= i < |lines| && IsNonBlank(lines[i]) && StripUpper(lines[i]) == r[j];
        assert |r[j]| == |Strip(lines[i])|;
      }
    }
    r
  }

  /** The lines are read one after another: a concatenation gives the entries of each part, in order. */
  lemma {:induction false} TxtRollnosAppend(a: seq<string>, b: seq<string>)
    ensures TxtRollnos(a + b) == TxtRollnos(a) + TxtRollnos(b)
  {
    FilterMapAppend(a, b, IsNonBlank, StripUpper);
  }

  /** A single line gives its normalised form, or nothing when it is blank. */
  lemma {:induction false} TxtRollnosOfLine(line: string)
    ensures TxtRollnos([line]) == if Strip(line) == [] then [] else [StripUpper(line)]
  {
    assert [line][..0] == [];
  }

  /**
   * Every entry from a text file is non-empty, carries no surrounding
   * whitespace and no lower-case letter, and is the normalised form of a
   * non-blank line; every non-blank line contributes its normalised form.
   */
  lemma {:induction false} TxtRollnosEntries(lines: seq<string>, x: string)
    ensures x in TxtRollnos(lines) ==> x != [] && IsStripped(x) && NoLower(x)
    ensures x in TxtRollnos(lines) <==>
      exists i :: 0 <= i < |lines| && Strip(lines[i]) != [] && StripUpper(lines[i]) == x
  {
    FilterMapMember(lines, IsNonBlank, StripUpper, x);
    if x in TxtRollnos(lines) {
      var i :| 0 <= i < |lines| && IsNonBlank(lines[i]) && StripUpper(lines[i]) == x;
      assert |x| == |Strip(lines[i])|;
    }
  }

  // ---------------------------------------------------------------- .xlsx

  /** The first cell of a row as a string, "" when the row or the cell is empty. */
  function FirstCell(row: Row): string {
    if row != [] && row[0].Some? then row[0].value else ""
  }

  /** `row and row[0]`: the row is non-empty and its first cell a non-empty string. */
  predicate IsUsedRow(row: Row) {
    FirstCell(row) != ""
  }

  /** `str(row[0]).strip().upper()` */
  function RowEntry(row: Row): string {
    StripUpper(FirstCell(row))
  }

  /** `sheet.iter_rows(min_row=2)`: every row but the header row, in order. */
  function DataRows(rows: seq<Row>): (data: seq<Row>)
    ensures |data| == if rows == [] then 0 else |rows| - 1
    ensures forall i :: 0 <= i < |data| ==> data[i] == rows[i + 1]
  {
    if rows == [] then [] else rows[1..]
  }

  /**
   * The roll numbers of a workbook: one entry per data row whose first cell
   * is present and non-empty, each without surrounding whitespace and
   * without lower-case letters (but possibly empty).
   */
  function SheetRollnos(rows: seq<Row>): (r: seq<string>)
    ensures |r| == CountKept(DataRows(rows), IsUsedRow)
    ensures forall j :: 0 <= j < |r| ==> IsStripped(r[j]) && NoLower(r[j])
  {
    var data := DataRows(rows);
    var r := FilterMap(data, IsUsedRow, RowEntry);
    FilterMapLength(data, IsUsedRow, RowEntry);
    assert forall j :: 0 <= j < |r| ==> IsStripped(r[j]) && NoLower(r[j]) by {
      forall j | 0 <= j < |r| ensures IsStripped(r[j]) && NoLower(r[j]) {
        FilterMapMember(data, IsUsedRow, RowEntry, r[j]);
      }
    }
    r
  }

  /**
   * The header row never contributes, and no data row is left unread: the
   * entries are exactly the normalised non-empty first cells of rows 2 on.
   */
  lemma {:induction false} SheetRollnosEntries(rows: seq<Row>, x: string)
    ensures x in SheetRollnos(rows) <==>
      exists i :: 1 <= i < |rows| && FirstCell(rows[i]) != "" && StripUpper(FirstCell(rows[i])) == x
  {
    var data := DataRows(rows);
    FilterMapMember(data, IsUsedRow, RowEntry, x);
    if x in SheetRollnos(rows) {
      var i :| 0 <= i < |data| && IsUsedRow(data[i]) && RowEntry(data[i]) == x;
      assert data[i] == rows[i + 1];
    }
    if exists i :: 1 <= i < |rows| && FirstCell(rows[i]) != "" && StripUpper(FirstCell(rows[i])) == x {
      var i :| 1 <= i < |rows| && FirstCell(rows[i]) != "" && StripUpper(FirstCell(rows[i])) == x;
      assert data[i - 1] == rows[i];
      assert IsUsedRow(data[i - 1]) && RowEntry(data[i - 1]) == x;
    }
  }

  /** Whatever the header holds, the data rows are read one after another, in order. */
  lemma {:induction false} SheetRollnosAppend(header: Row, a: seq<Row>, b: seq<Row>)
    ensures SheetRollnos([header] + a + b) == SheetRollnos([header] + a) + SheetRollnos([header] + b)
  {
    assert ([header] + a + b)[1..] == a + b;
    assert ([header] + a)[1..] == a;
    assert ([header] + b)[1..] == b;
    FilterMapAppend(a, b, IsUsedRow, RowEntry);
  }

  /**
   * Unlike a blank line of a text file, a cell holding only whitespace is
   * used, and gives an empty roll number.
   */
  lemma {:induction false} BlankCellGivesEmptyEntry(header: Row, cell: string)
    requires cell != [] && Strip(cell) == []
    ensures SheetRollnos([header, [Some(cell)]]) == [""]
    ensures TxtRollnos([cell]) == []
  {
    assert [header, [Some(cell)]][1..] == [[Some(cell)]];
    assert [[Some(cell)]][..0] == [];
    assert [cell][..0] == [];
  }

  /** The workbook branch: the loop that appends one entry per used data row. */
  method ReadSheetRollnos(rows: seq<Row>) returns (rollnos: seq<string>)
    ensures rollnos == SheetRollnos(rows)
  {
    var data := DataRows(rows);
    rollnos := [];
    var i := 0;
    while i < |data|
      invariant 0 <= i <= |data|
      invariant rollnos == FilterMap(data[..i], IsUsedRow, RowEntry)
    {
      var row := data[i];
      if row != [] && row[0].Some? && row[0].value != "" {
        rollnos := rollnos + [StripUpper(row[0].value)];
      }
      assert data[..i + 1][..i] == data[..i];
      i := i + 1;
    }
    assert data[..i] == data;
  }

  // ---------------------------------------------------------------- dispatch

  /**
   * What read_rollnos_from_file returns for a file with these contents: the
   * roll numbers when the extension, in any case, is .txt or .xlsx, and the
   * file-type error otherwise.
   */
  function FileRollnos(path: string, lines: seq<string>, rows: seq<Row>): (r: Result<seq<string>>)
    ensures r.Err? <==> Kind(path) == Unsupported
    ensures r.Err? ==> r.error == UnsupportedFileType
    ensures Kind(path) == TextFile ==> r == Ok(TxtRollnos(lines))
    ensures Kind(path) == Workbook ==> r == Ok(SheetRollnos(rows))
    ensures Kind(Upper(path)) == Kind(path)
  {
    KindIgnoresCase(path);
    match Kind(path)
    case TextFile => Ok(TxtRollnos(lines))
    case Workbook => Ok(SheetRollnos(rows))
    case Unsupported => Err(UnsupportedFileType)
  }

  /** Two paths that differ only in the case of their letters read the same. */
  lemma {:induction false} FileRollnosIgnoresCase(p: string, q: string, lines: seq<string>, rows: seq<Row>)
    requires Upper(p) == Upper(q)
    ensures FileRollnos(p, lines, rows) == FileRollnos(q, lines, rows)
  {
    KindIgnoresCase(p);
    KindIgnoresCase(q);
  }

  method ReadRollnosFromFile(path: string, lines: seq<string>, rows: seq<Row>) returns (r: Result<seq<string>>)
    ensures r == FileRollnos(path, lines, rows)
  {
    var ext := Extension(path);
    if ext == ".txt" {
      r := Ok(TxtRollnos(lines));
    } else if ext == ".xlsx" {
      var rollnos := ReadSheetRollnos(rows);
      r := Ok(rollnos);
    } else {
      r := Err(UnsupportedFileType);
    }
  }
}
