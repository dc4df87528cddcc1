/** The embedded engine's `execute`: it makes the file-based engine answer
    like the client-server driver by deciding from the query text alone
    whether to fetch rows or to run a statement, and by reshaping the
    statement summary into `{ insertId, affectedRows }`. */
module Adapter {
  import opened Common
  import opened JsText
  import opened Sql

  // ---------------------------------------------------------------------
  // The read/write classifier

  /** `toUpperCase` on one character, under the full case mapping that
      JavaScript applies, where a few characters become two or three.
      Mapped exactly: the ASCII lower-case letters; the two characters whose
      upper case is a single ASCII letter, the long s (U+017F) and the
      dotless i (U+0131); and every character whose upper case begins with
      an ASCII letter: the sharp s (U+00DF), j with caron (U+01F0), the
      letters with a detached mark U+1E96 to U+1E9A, and the ligatures
      U+FB00 to U+FB06. Every other character is kept as it is. JavaScript
      may map such a character to other text, but that text, like the
      character itself, does not begin with an ASCII letter, so the
      classifier, which compares with ASCII letters, answers the same. */
  function UpperText(c: char): (u: string)
    ensures |u| >= 1
  {
    if 'a' <= c <= 'z' then [(c as int - 32) as char]
    else if c == '\U{017F}' then "S"
    else if c == '\U{0131}' then "I"
    else if c == '\U{00DF}' then "SS"
    else if c == '\U{01F0}' then "J\U{030C}"
    else if c == '\U{1E96}' then "H\U{0331}"
    else if c == '\U{1E97}' then "T\U{0308}"
    else if c == '\U{1E98}' then "W\U{030A}"
    else if c == '\U{1E99}' then "Y\U{030A}"
    else if c == '\U{1E9A}' then "A\U{02BE}"
    else if c == '\U{FB00}' then "FF"
    else if c == '\U{FB01}' then "FI"
    else if c == '\U{FB02}' then "FL"
    else if c == '\U{FB03}' then "FFI"
    else if c == '\U{FB04}' then "FFL"
    else if c == '\U{FB05}' || c == '\U{FB06}' then "ST"
    else [c]
  }

  /** `s.toUpperCase()`: each character's upper case, in order. */
  function UpperCase(s: string): (r: string)
    ensures |r| >= |s|
    decreases |s|
  {
    if |s| == 0 then "" else UpperText(s[0]) + UpperCase(s[1..])
  }

  /** Upper-casing a concatenation upper-cases each part. */
  lemma {:induction false} UpperCaseConcat(a: string, b: string)
    ensures UpperCase(a + b) == UpperCase(a) + UpperCase(b)
    decreases |a|
  {
    if |a| == 0 {
      assert a + b == b;
    } else {
      assert (a + b)[0] == a[0];
      assert (a + b)[1..] == a[1..] + b;
      UpperCaseConcat(a[1..], b);
      ConcatAssoc(UpperText(a[0]), UpperCase(a[1..]), UpperCase(b));
    }
  }

  predicate StartsWith(s: string, prefix: string)
  {
    |prefix| <= |s| && s[..|prefix|] == prefix
  }

  const SelectKeyword: string := "SELECT"

  /** `sql.trim().toUpperCase().startsWith('SELECT')`. */
  predicate IsSelect(sql: string)
  {
    StartsWith(UpperCase(Trim(sql)), SelectKeyword)
  }

  /** The characters that upper-case to the keyword letter `k` alone: `k`
      itself, its lower-case form, and for `S` also the long s. */
  predicate KeywordLetter(c: char, k: char)
  {
    c == k || c as int == k as int + 32 || (k == 'S' && c == '\U{017F}')
  }

  /** The characters whose upper case begins with the final T: the letter in
      either case and t with diaeresis (U+1E97), whose upper case is T
      followed by a combining diaeresis. */
  predicate FinalLetter(c: char)
  {
    KeywordLetter(c, 'T') || c == '\U{1E97}'
  }

  lemma UpperTextToKeywordLetter(c: char, k: char)
    requires k == 'S' || k == 'E' || k == 'L' || k == 'C'
    ensures UpperText(c) == [k] <==> KeywordLetter(c, k)
  {
  }

  lemma UpperTextToFinalLetter(c: char)
    ensures UpperText(c)[0] == 'T' <==> FinalLetter(c)
  {
  }

  /** Where a character becomes several, the first two never read as a
      stretch of the keyword before its final letter. */
  lemma ExpansionsOutsideKeyword(c: char)
    requires |UpperText(c)| >= 2
    ensures UpperText(c)[0] != 'E' && UpperText(c)[0] != 'L' && UpperText(c)[0] != 'C'
    ensures UpperText(c)[0] == 'S' ==> UpperText(c)[1] != 'E'
  {
  }

  /** Before the final letter, the keyword is matched one character of `t`
      per keyword letter. */
  lemma UpperCaseStep(t: string, i: nat, k: string)
    requires i <= |t|
    requires |k| >= 2 && (k[0] == 'E' || k[0] == 'L' || k[0] == 'C' || (k[0] == 'S' && k[1] == 'E'))
    ensures StartsWith(UpperCase(t[i..]), k) <==>
      i < |t| && UpperText(t[i]) == [k[0]] && StartsWith(UpperCase(t[i + 1..]), k[1..])
  {
    if i < |t| {
      var u := UpperText(t[i]);
      var r := UpperCase(t[i + 1..]);
      assert t[i..][1..] == t[i + 1..];
      assert UpperCase(t[i..]) == u + r;
      if |u| == 1 {
        if StartsWith(u + r, k) {
          assert (u + r)[..|k|][0] == u[0];
          assert (u + r)[..|k|][1..] == r[..|k| - 1];
        }
        if u == [k[0]] && StartsWith(r, k[1..]) {
          assert (u + r)[..|k|] == u + r[..|k| - 1];
          assert k == [k[0]] + k[1..];
        }
      } else {
        ExpansionsOutsideKeyword(t[i]);
        assert (u + r)[0] == u[0] && (u + r)[1] == u[1];
      }
    }
  }

  /** The final letter only has to begin its character's upper case. */
  lemma UpperCaseFinal(t: string, i: nat)
    requires i <= |t|
    ensures StartsWith(UpperCase(t[i..]), "T") <==> i < |t| && FinalLetter(t[i])
  {
    if i < |t| {
      var u := UpperText(t[i]);
      assert t[i..][1..] == t[i + 1..];
      assert UpperCase(t[i..]) == u + UpperCase(t[i + 1..]);
      assert (u + UpperCase(t[i + 1..]))[0] == u[0];
      UpperTextToFinalLetter(t[i]);
    }
  }

  /** The first six characters of `t` upper-case to a text beginning with
      SELECT: five keyword letters in any mixture of cases, the long s
      counting as an s, then a character whose upper case begins with T. */
  predicate SpellsSelect(t: string)
  {
    |t| >= 6 &&
    KeywordLetter(t[0], 'S') && KeywordLetter(t[1], 'E') && KeywordLetter(t[2], 'L') &&
    KeywordLetter(t[3], 'E') && KeywordLetter(t[4], 'C') && FinalLetter(t[5])
  }

  lemma KeywordTails()
    ensures SelectKeyword == "SELECT"
    ensures "SELECT"[0] == 'S' && "SELECT"[1] == 'E' && "SELECT"[1..] == "ELECT"
    ensures "ELECT"[0] == 'E' && "ELECT"[1..] == "LECT"
    ensures "LECT"[0] == 'L' && "LECT"[1..] == "ECT"
    ensures "ECT"[0] == 'E' && "ECT"[1..] == "CT"
    ensures "CT"[0] == 'C' && "CT"[1..] == "T"
  {
  }

  lemma UpperCaseStartsWithSelect(t: string)
    ensures StartsWith(UpperCase(t), SelectKeyword) <==> SpellsSelect(t)
  {
    KeywordTails();
    assert t[0..] == t;
    UpperCaseStep(t, 0, "SELECT");
    UpperTextToKeywordLetter(if |t| > 0 then t[0] else 'S', 'S');
    if |t| >= 1 {
      UpperCaseStep(t, 1, "ELECT");
      UpperTextToKeywordLetter(if |t| > 1 then t[1] else 'E', 'E');
    }
    if |t| >= 2 {
      UpperCaseStep(t, 2, "LECT");
      UpperTextToKeywordLetter(if |t| > 2 then t[2] else 'L', 'L');
    }
    if |t| >= 3 {
      UpperCaseStep(t, 3, "ECT");
      UpperTextToKeywordLetter(if |t| > 3 then t[3] else 'E', 'E');
    }
    if |t| >= 4 {
      UpperCaseStep(t, 4, "CT");
      UpperTextToKeywordLetter(if |t| > 4 then t[4] else 'C', 'C');
    }
    if |t| >= 5 {
      UpperCaseFinal(t, 5);
    }
  }

  /** Trailing spaces cannot touch the first six characters of a string
      that spells SELECT, and a prefix that spells it makes the whole
      string spell it. */
  lemma TrimEndKeepsKeyword(t: string)
    ensures SpellsSelect(TrimEnd(t)) <==> SpellsSelect(t)
  {
    var r := TrimEnd(t);
    if SpellsSelect(t) {
      assert !IsSpace(t[5]);
      assert |r| >= 6;
    }
  }

  /** A query is a read exactly when, after its leading spaces, its first
      six characters upper-case to a text beginning with SELECT: five
      keyword letters in any mixture of cases and a sixth character whose
      upper case begins with T. Trailing spaces play no part. */
  lemma IsSelectIff(sql: string)
    ensures IsSelect(sql) <==> SpellsSelect(TrimStart(sql))
  {
    UpperCaseStartsWithSelect(Trim(sql));
    TrimEndKeepsKeyword(TrimStart(sql));
  }

  /** Leading spaces and letter case do not matter: any spelling of SELECT
      after any run of spaces makes a read. */
  lemma SelectInAnyCase(lead: string, rest: string)
    requires AllSpace(lead) && SpellsSelect(rest)
    ensures IsSelect(lead + rest)
  {
    TrimStartAfterSpaces(lead, rest);
    IsSelectIff(lead + rest);
  }

  /** A word after a run of spaces is where `trimStart` stops. */
  lemma WordAfterSpaces(lead: string, kw: string, rest: string)
    requires AllSpace(lead) && |kw| > 0 && !IsSpace(kw[0])
    ensures TrimStart(lead + kw + rest) == kw + rest
  {
    assert lead + kw + rest == lead + (kw + rest);
    TrimStartAfterSpaces(lead, kw + rest);
  }

  /** A query whose first word does not begin with an s is a write. */
  lemma OtherKeywordIsWrite(lead: string, kw: string, rest: string)
    requires AllSpace(lead) && |kw| > 0 && !IsSpace(kw[0]) && !KeywordLetter(kw[0], 'S')
    ensures !IsSelect(lead + kw + rest)
  {
    WordAfterSpaces(lead, kw, rest);
    assert (kw + rest)[0] == kw[0];
    IsSelectIff(lead + kw + rest);
  }

  /** The reads the program sends begin with SELECT, possibly after a run
      of spaces, and are classified as reads. */
  lemma ProgramReadsClassified(lead: string, rest: string)
    requires AllSpace(lead)
    ensures IsSelect(lead + "SELECT" + rest)
  {
    var kw := "SELECT";
    assert kw[0] == 'S' && kw[1] == 'E' && kw[2] == 'L' && kw[3] == 'E' && kw[4] == 'C' && kw[5] == 'T';
    var t := kw + rest;
    assert t[..6] == kw;
    assert SpellsSelect(t);
    assert lead + kw + rest == lead + t;
    SelectInAnyCase(lead, t);
  }

  /** Full case mapping reaches past ASCII letters: t with diaeresis
      upper-cases to T and a combining mark, so `selec\U{1E97}` opens a read,
      while the sharp s upper-cases to SS and so cannot stand for the first
      letter. */
  lemma CaseMappingEdges(lead: string, rest: string)
    requires AllSpace(lead)
    ensures IsSelect(lead + "selec\U{1E97}" + rest)
    ensures !IsSelect(lead + "\U{00DF}elect" + rest)
  {
    var kw := "selec\U{1E97}";
    assert kw[0] == 's' && kw[1] == 'e' && kw[2] == 'l' && kw[3] == 'e' && kw[4] == 'c';
    assert kw[5] == '\U{1E97}';
    var t := kw + rest;
    assert t[..6] == kw;
    assert SpellsSelect(t);
    assert lead + kw + rest == lead + t;
    SelectInAnyCase(lead, t);
    var sharp := "\U{00DF}elect";
    assert sharp[0] == '\U{00DF}' && !IsSpace(sharp[0]);
    OtherKeywordIsWrite(lead, sharp, rest);
  }

  /** The writes the program sends begin with CREATE, INSERT, UPDATE or
      DELETE and are classified as writes. So is a common-table expression
      (`WITH ... SELECT ...`), although it returns rows: they are lost. */
  lemma WritesAndCommonTableExpressions(lead: string, kw: string, rest: string)
    requires AllSpace(lead)
    requires kw == "CREATE" || kw == "INSERT" || kw == "UPDATE" || kw == "DELETE" || kw == "WITH"
    ensures !IsSelect(lead + kw + rest)
  {
    assert kw[0] in "CIUDW";
    OtherKeywordIsWrite(lead, kw, rest);
  }

  // ---------------------------------------------------------------------
  // Execute

  /** A fetched row: column name to value. */
  type Record = map<string, SqlValue>

  /** What the engine reports after running a statement. */
  datatype RunInfo = RunInfo(lastId: int, changes: nat)

  /** The first element of the pair `execute` resolves to (the second is
      always `null`): the fetched rows, or the driver-shaped write summary. */
  datatype ExecResult = Rows(rows: seq<Record>) | WriteSummary(insertId: int, affectedRows: nat)

  /** `db.execute(sql, params)` on the embedded engine. `all` fetches rows
      and `run` runs a statement; a failure of either rejects the promise. */
  function Execute(sql: string, params: seq<SqlValue>,
                   all: (string, seq<SqlValue>) -> Result<seq<Record>, DbError>,
                   run: (string, seq<SqlValue>) -> Result<RunInfo, DbError>): (r: Result<ExecResult, DbError>)
    ensures r.Ok? ==> (r.value.Rows? <==> IsSelect(sql))
  {
    if IsSelect(sql) then
      match all(sql, params)
      case Err(e) => Err(e)
      case Ok(rows) => Ok(Rows(rows))
    else
      match run(sql, params)
      case Err(e) => Err(e)
      case Ok(info) => Ok(WriteSummary(info.lastId, info.changes))
  }

  /** A read consults only the row fetcher and passes its rows through
      unchanged; a write consults only the statement runner and reports its
      last id and change count; an engine error is passed on as it is, with
      no result. */
  lemma ExecuteRoutes(sql: string, params: seq<SqlValue>,
                      all: (string, seq<SqlValue>) -> Result<seq<Record>, DbError>,
                      run: (string, seq<SqlValue>) -> Result<RunInfo, DbError>,
                      all': (string, seq<SqlValue>) -> Result<seq<Record>, DbError>,
                      run': (string, seq<SqlValue>) -> Result<RunInfo, DbError>)
    ensures IsSelect(sql) ==>
      Execute(sql, params, all, run) == Execute(sql, params, all, run') &&
      (all(sql, params).Ok? ==> Execute(sql, params, all, run) == Ok(Rows(all(sql, params).value))) &&
      (all(sql, params).Err? ==> Execute(sql, params, all, run) == Err(all(sql, params).error))
    ensures !IsSelect(sql) ==>
      Execute(sql, params, all, run) == Execute(sql, params, all', run) &&
      (run(sql, params).Ok? ==>
         Execute(sql, params, all, run) ==
         Ok(WriteSummary(run(sql, params).value.lastId, run(sql, params).value.changes))) &&
      (run(sql, params).Err? ==> Execute(sql, params, all, run) == Err(run(sql, params).error))
  {
  }
}
