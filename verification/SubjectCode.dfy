/**
 * Validation of the subject code and the name of the attendance table built
 * from it.
 */
module SubjectCode {
  import opened Text
  import opened Results

  /** A character of the class [A-Za-z0-9_] in SUBJECT_RE. */
  predicate IsWordChar(c: char) {
    'A' <= c <= 'Z' || 'a' <= c <= 'z' || '0' <= c <= '9' || c == '_'
  }

  /** A character a sanitised subject code may hold: [A-Z0-9_]. */
  predicate IsCodeChar(c: char) {
    'A' <= c <= 'Z' || '0' <= c <= '9' || c == '_'
  }

  predicate AllWordChars(s: string) {
    forall i :: 0 <= i < |s| ==> IsWordChar(s[i])
  }

  /**
   * Whether SUBJECT_RE.match(s) succeeds for ^[A-Za-z0-9_]+$. Python's `$`
   * also matches just before a newline that ends the string, so "CS101\n"
   * matches as well.
   */
  predicate MatchesSubjectPattern(s: string) {
    || (|s| > 0 && AllWordChars(s))
    || (|s| > 1 && s[|s| - 1] == '\n' && AllWordChars(s[..|s| - 1]))
  }

  /**
   * sanitize_subject_code: strip, upper-case, then check against SUBJECT_RE.
   * An accepted code is the normalised input, is non-empty and holds only
   * [A-Z0-9_]; a rejected one raises the subject-code error.
   */
  function SanitizeSubjectCode(s: string): (r: Result<string>)
    ensures r.Ok? ==> r.value == StripUpper(s) && r.value != []
    ensures r.Ok? ==> forall i :: 0 <= i < |r.value| ==> IsCodeChar(r.value[i])
    ensures r.Err? ==> r.error == InvalidSubjectCode
  {
    var t := StripUpper(s);
    if MatchesSubjectPattern(t) then
      assert t != [] && AllWordChars(t) by {
        NoFinalNewline(t);
      }
      Ok(t)
    else
      Err(InvalidSubjectCode)
  }

  /** A stripped string cannot end in a newline, so the `$` quirk is unreachable here. */
  lemma NoFinalNewline(t: string)
    requires IsStripped(t)
    ensures MatchesSubjectPattern(t) <==> t != [] && AllWordChars(t)
  {
    if |t| > 0 {
      assert IsSpace('\n');
    }
  }

  /**
   * The code is refused exactly when its normalised form is empty or holds a
   * character outside letters, digits and underscore.
   */
  lemma SanitizeRejects(s: string)
    ensures SanitizeSubjectCode(s).Err? <==>
      var t := StripUpper(s);
      t == [] || exists i :: 0 <= i < |t| && !IsWordChar(t[i])
  {
    NoFinalNewline(StripUpper(s));
  }

  /** Sanitising a sanitised code returns it unchanged. */
  lemma {:induction false} SanitizeIdempotent(s: string)
    requires SanitizeSubjectCode(s).Ok?
    ensures SanitizeSubjectCode(SanitizeSubjectCode(s).value) == SanitizeSubjectCode(s)
  {
    var t := SanitizeSubjectCode(s).value;
    StripUpperIdempotent(s);
    NoFinalNewline(t);
  }

  const TABLE_PREFIX := "attendance_"

  /**
   * The table name f"attendance_{subject_code}". Built from a code of
   * [A-Z0-9_] it holds only [A-Za-z0-9_].
   */
  function TableName(code: string): (name: string)
    ensures (forall i :: 0 <= i < |code| ==> IsCodeChar(code[i])) ==> AllWordChars(name)
  {
    var name := TABLE_PREFIX + code;
    assert (forall i :: 0 <= i < |code| ==> IsCodeChar(code[i])) ==> AllWordChars(name) by {
      forall i | |TABLE_PREFIX| <= i < |name| ensures name[i] == code[i - |TABLE_PREFIX|] {
      }
    }
    name
  }

  /**
   * The foreign-key constraint name f"{table_name}_fk_enroll". Built from a
   * name of [A-Za-z0-9_] it holds only [A-Za-z0-9_].
   */
  function ConstraintName(table: string): (name: string)
    ensures AllWordChars(table) ==> AllWordChars(name)
  {
    var name := table + "_fk_enroll";
    assert AllWordChars(table) ==> AllWordChars(name) by {
      forall i | 0 <= i < |table| ensures name[i] == table[i] {
      }
    }
    name
  }

  /**
   * An identifier as the SQL text quotes it: `name`. When the name holds no
   * backtick, the only backticks of the quoted text are its two delimiters.
   */
  function Quoted(name: string): (q: string)
    ensures '`' !in name ==> forall i :: 0 <= i < |q| ==> (q[i] == '`' <==> i == 0 || i == |q| - 1)
  {
    var q := "`" + name + "`";
    assert '`' !in name ==> forall i :: 0 < i < |q| - 1 ==> q[i] != '`' by {
      forall i | 0 < i < |q| - 1 ensures q[i] == name[i - 1] {
      }
    }
    q
  }

  /** No character that could end or escape a quoted identifier or a statement. */
  predicate IsSafeIdentChar(c: char) {
    c != '`' && c != '\'' && c != '"' && c != ';' && c != '\\' && !IsSpace(c)
  }

  /** Distinct subject codes give distinct tables. */
  lemma {:induction false} TableNameInjective(a: string, b: string)
    requires TableName(a) == TableName(b)
    ensures a == b
  {
    assert a == TableName(a)[|TABLE_PREFIX|..];
    assert b == TableName(b)[|TABLE_PREFIX|..];
  }

  /**
   * The table name and the constraint name built from a sanitised code hold
   * only [A-Za-z0-9_], so none of their characters can end the backtick
   * quoting or the statement: in the quoted names the only backticks are the
   * two delimiters.
   */
  lemma {:induction false} SanitizedNamesCannotInject(s: string)
    requires SanitizeSubjectCode(s).Ok?
    ensures var table := TableName(SanitizeSubjectCode(s).value);
      && AllWordChars(table) && AllWordChars(ConstraintName(table))
      && IsClosedIdentifier(table)
      && IsClosedIdentifier(ConstraintName(table))
  {
    var table := TableName(SanitizeSubjectCode(s).value);
    WordNameIsClosed(table);
    WordNameIsClosed(ConstraintName(table));
  }

  /**
   * Interpolated into `...`, the name cannot break out: it holds no unsafe
   * character, and the quoted text has backticks only at its two ends.
   */
  predicate IsClosedIdentifier(name: string) {
    && (forall i :: 0 <= i < |name| ==> IsSafeIdentChar(name[i]))
    && (forall i :: 0 <= i < |Quoted(name)| ==>
          (Quoted(name)[i] == '`' <==> i == 0 || i == |Quoted(name)| - 1))
  }

  lemma WordNameIsClosed(name: string)
    requires AllWordChars(name)
    ensures IsClosedIdentifier(name)
  {
    assert '`' !in name;
  }
}
