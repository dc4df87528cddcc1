/** The JavaScript string primitives the blog relies on: the `\s` class,
    `trim`, `split` on a one-character separator, `join`, `String(n)` and
    `parseInt` without a radix. Each is stated against an independent
    characterisation (a round trip or an explicit description of the
    result) so that the modules built on them can cite those facts. */
module JsText {
  import opened Common

  /** The characters matched by `\s` and removed by `trim`: ECMAScript
      WhiteSpace (tab, vertical tab, form feed, the byte-order mark and
      every Unicode space separator) plus the four line terminators. */
  predicate IsSpace(c: char)
  {
    || c == '\t' || c == '\n' || c == '\U{000B}' || c == '\U{000C}' || c == '\r'
    || c == ' ' || c == '\U{00A0}' || c == '\U{1680}'
    || ('\U{2000}' <= c <= '\U{200A}')
    || c == '\U{2028}' || c == '\U{2029}' || c == '\U{202F}' || c == '\U{205F}'
    || c == '\U{3000}' || c == '\U{FEFF}'
  }

  predicate NoSpace(s: string)
  {
    forall i | 0 <= i < |s| :: !IsSpace(s[i])
  }

  /** `s.trimStart()`: the suffix left after the leading run of spaces. */
  function TrimStart(s: string): (r: string)
    ensures |r| <= |s| && r == s[|s| - |r|..]
    ensures forall i | 0 <= i < |s| - |r| :: IsSpace(s[i])
    ensures r == "" || !IsSpace(r[0])
    decreases |s|
  {
    if |s| > 0 && IsSpace(s[0]) then TrimStart(s[1..]) else s
  }

  /** `s.trimEnd()`: the prefix left after the trailing run of spaces. */
  function TrimEnd(s: string): (r: string)
    ensures |r| <= |s| && r == s[..|r|]
    ensures forall i | |r| <= i < |s| :: IsSpace(s[i])
    ensures r == "" || !IsSpace(r[|r| - 1])
    decreases |s|
  {
    if |s| > 0 && IsSpace(s[|s| - 1]) then TrimEnd(s[..|s| - 1]) else s
  }

  /** `s.trim()`. */
  function Trim(s: string): string
  {
    TrimEnd(TrimStart(s))
  }

  /** A string `trim` leaves alone. */
  predicate IsTrimmed(s: string)
  {
    s == "" || (!IsSpace(s[0]) && !IsSpace(s[|s| - 1]))
  }

  predicate AllSpace(s: string)
  {
    forall i | 0 <= i < |s| :: IsSpace(s[i])
  }

  /** `s` is `r` with the all-space margins `before` and `after`. */
  predicate Surrounds(s: string, before: string, r: string, after: string)
  {
    s == before + r + after && AllSpace(before) && AllSpace(after)
  }

  /** The spaces `trimStart` removes. */
  lemma TrimStartMargin(s: string)
    ensures AllSpace(s[..|s| - |TrimStart(s)|])
  {
    var t := TrimStart(s);
    var before := s[..|s| - |t|];
    forall i | 0 <= i < |before| ensures IsSpace(before[i]) {
      assert before[i] == s[i];
    }
  }

  /** The spaces `trimEnd` removes. */
  lemma TrimEndMargin(t: string)
    ensures AllSpace(t[|TrimEnd(t)|..])
  {
    var r := TrimEnd(t);
    var after := t[|r|..];
    forall i | 0 <= i < |after| ensures IsSpace(after[i]) {
      assert after[i] == t[|r| + i];
    }
  }

  /** `trim` leaves no space at either end. */
  lemma TrimIsTrimmed(s: string)
    ensures IsTrimmed(Trim(s))
  {
    var t := TrimStart(s);
    var r := TrimEnd(t);
    if |r| > 0 {
      assert r[0] == t[0];
    }
  }

  /** A string is its prefix up to a suffix `t`, then a prefix `r` of `t`,
      then the rest of `t`. */
  lemma SplitAroundInner(s: string, t: string, r: string)
    requires |t| <= |s| && t == s[|s| - |t|..]
    requires |r| <= |t| && r == t[..|r|]
    ensures s == s[..|s| - |t|] + r + t[|r|..]
  {
    var before := s[..|s| - |t|];
    var after := t[|r|..];
    assert t == r + after;
    assert s == before + t;
    ConcatAssoc(before, r, after);
  }

  /** `trim` removes exactly the surrounding spaces: the input is its result
      between the all-space run `trimStart` drops and the all-space run
      `trimEnd` drops, and the result has no space at either end. */
  lemma TrimSpec(s: string)
    ensures IsTrimmed(Trim(s))
    ensures Surrounds(s, s[..|s| - |TrimStart(s)|], Trim(s), TrimStart(s)[|Trim(s)|..])
  {
    TrimIsTrimmed(s);
    var t := TrimStart(s);
    var r := TrimEnd(t);
    TrimStartMargin(s);
    TrimEndMargin(t);
    SplitAroundInner(s, t, r);
  }

  /** Leading spaces are all that `trimStart` removes. */
  lemma {:induction false} TrimStartAfterSpaces(lead: string, s: string)
    requires AllSpace(lead) && (s == "" || !IsSpace(s[0]))
    ensures TrimStart(lead + s) == s
    decreases |lead|
  {
    if |lead| > 0 {
      assert (lead + s)[1..] == lead[1..] + s;
      TrimStartAfterSpaces(lead[1..], s);
    }
  }

  /** Trailing spaces are all that `trimEnd` removes. */
  lemma {:induction false} TrimEndBeforeSpaces(s: string, trail: string)
    requires AllSpace(trail) && (s == "" || !IsSpace(s[|s| - 1]))
    ensures TrimEnd(s + trail) == s
    decreases |trail|
  {
    if |trail| > 0 {
      var u := s + trail;
      assert u[|u| - 1] == trail[|trail| - 1];
      assert u[..|u| - 1] == s + trail[..|trail| - 1];
      TrimEndBeforeSpaces(s, trail[..|trail| - 1]);
    } else {
      assert s + trail == s;
    }
  }

  /** `trim` strips all-space margins from a trimmed string and nothing
      more. */
  lemma TrimSurrounded(before: string, r: string, after: string)
    requires AllSpace(before) && AllSpace(after) && IsTrimmed(r)
    ensures Trim(before + r + after) == r
  {
    if r == "" {
      assert before + r + after == (before + after) + "";
      TrimStartAfterSpaces(before + after, "");
    } else {
      assert before + r + after == before + (r + after);
      TrimStartAfterSpaces(before, r + after);
      TrimEndBeforeSpaces(r, after);
    }
  }

  /** A string with no surrounding spaces is its own trim. */
  lemma TrimOfTrimmed(s: string)
    requires IsTrimmed(s)
    ensures Trim(s) == s
  {
  }

  /** Number of occurrences of `c` in `s`. */
  function Occurrences(s: string, c: char): nat
  {
    if |s| == 0 then 0 else (if s[0] == c then 1 else 0) + Occurrences(s[1..], c)
  }

  /** `s.split(sep)` for a one-character separator: the pieces between
      separators, empty pieces included, never an empty list. */
  function Split(s: string, sep: char): (parts: seq<string>)
    ensures |parts| == Occurrences(s, sep) + 1
    ensures forall i | 0 <= i < |parts| :: sep !in parts[i]
    decreases |s|
  {
    if |s| == 0 then [""]
    else
      var rest := Split(s[1..], sep);
      if s[0] == sep then [""] + rest
      else [[s[0]] + rest[0]] + rest[1..]
  }

  /** Counting distributes over concatenation. */
  lemma {:induction false} OccurrencesConcat(a: string, b: string, c: char)
    ensures Occurrences(a + b, c) == Occurrences(a, c) + Occurrences(b, c)
    decreases |a|
  {
    if |a| > 0 {
      assert (a + b)[0] == a[0];
      assert (a + b)[1..] == a[1..] + b;
      OccurrencesConcat(a[1..], b, c);
    } else {
      assert a + b == b;
    }
  }

  lemma {:induction false} OccurrencesMember(s: string, c: char)
    ensures Occurrences(s, c) > 0 <==> c in s
    decreases |s|
  {
    if |s| > 0 {
      OccurrencesMember(s[1..], c);
      assert c in s <==> s[0] == c || c in s[1..];
    }
  }

  lemma ConcatAssoc(a: string, b: string, c: string)
    ensures a + (b + c) == (a + b) + c
  {
  }

  /** `parts.join(sep)`. */
  function JoinWith(parts: seq<string>, sep: string): string
  {
    if |parts| == 0 then ""
    else if |parts| == 1 then parts[0]
    else parts[0] + sep + JoinWith(parts[1..], sep)
  }

  /** Splitting loses nothing: joining the pieces back gives the input. */
  lemma {:induction false} JoinSplit(s: string, sep: char)
    ensures JoinWith(Split(s, sep), [sep]) == s
    decreases |s|
  {
    if |s| > 0 {
      var rest := Split(s[1..], sep);
      JoinSplit(s[1..], sep);
      if s[0] == sep {
        assert JoinWith([""] + rest, [sep]) == "" + [sep] + JoinWith(rest, [sep]);
        assert s == [sep] + s[1..];
      } else {
        var parts := [[s[0]] + rest[0]] + rest[1..];
        if |rest| == 1 {
          assert JoinWith(parts, [sep]) == [s[0]] + rest[0];
        } else {
          assert parts[1..] == rest[1..];
          assert JoinWith(parts, [sep]) == [s[0]] + rest[0] + [sep] + JoinWith(rest[1..], [sep]);
        }
        assert s == [s[0]] + s[1..];
      }
    }
  }

  lemma {:induction false} SplitPieceFree(w: string, sep: char)
    requires sep !in w
    ensures Split(w, sep) == [w]
    decreases |w|
  {
    if |w| > 0 {
      assert sep !in w[1..] by {
        forall i | 0 <= i < |w[1..]| ensures w[1..][i] != sep {
          assert w[1..][i] == w[i + 1];
        }
      }
      SplitPieceFree(w[1..], sep);
      assert [w[0]] + w[1..] == w;
    }
  }

  lemma {:induction false} SplitPieceThenSep(w: string, sep: char, rest: string)
    requires sep !in w
    ensures Split(w + [sep] + rest, sep) == [w] + Split(rest, sep)
    decreases |w|
  {
    var s := w + [sep] + rest;
    if |w| == 0 {
      assert s[1..] == rest;
    } else {
      assert s[1..] == w[1..] + [sep] + rest;
      assert sep !in w[1..] by {
        forall i | 0 <= i < |w[1..]| ensures w[1..][i] != sep {
          assert w[1..][i] == w[i + 1];
        }
      }
      SplitPieceThenSep(w[1..], sep, rest);
      assert [w[0]] + w[1..] == w;
    }
  }

  /** Joining separator-free pieces and splitting again gives the pieces back. */
  lemma {:induction false} SplitJoin(parts: seq<string>, sep: char)
    requires |parts| >= 1
    requires forall i | 0 <= i < |parts| :: sep !in parts[i]
    ensures Split(JoinWith(parts, [sep]), sep) == parts
    decreases |parts|
  {
    if |parts| == 1 {
      SplitPieceFree(parts[0], sep);
    } else {
      SplitJoin(parts[1..], sep);
      SplitPieceThenSep(parts[0], sep, JoinWith(parts[1..], [sep]));
      assert parts == [parts[0]] + parts[1..];
    }
  }

  /** A character absent from the input is absent from every piece. */
  lemma {:induction false} SplitPiecesWithout(s: string, sep: char, c: char)
    requires c !in s
    ensures forall i | 0 <= i < |Split(s, sep)| :: c !in Split(s, sep)[i]
    decreases |s|
  {
    if |s| > 0 {
      assert c !in s[1..] by {
        forall i | 0 <= i < |s[1..]| ensures s[1..][i] != c {
          assert s[1..][i] == s[i + 1];
        }
      }
      SplitPiecesWithout(s[1..], sep, c);
    }
  }

  /** A character absent from the pieces and the separator is absent from
      their join. */
  lemma {:induction false} JoinWithout(parts: seq<string>, sep: string, c: char)
    requires c !in sep
    requires forall i | 0 <= i < |parts| :: c !in parts[i]
    ensures c !in JoinWith(parts, sep)
    decreases |parts|
  {
    if |parts| > 1 {
      JoinWithout(parts[1..], sep, c);
    }
  }

  // ---------------------------------------------------------------------
  // String comparison

  /** `a < b` on strings: the first differing character decides, and a proper
      prefix comes first. Characters compare by code point. */
  predicate LexLess(a: string, b: string)
    decreases |a|
  {
    |b| > 0 && (|a| == 0 || a[0] < b[0] || (a[0] == b[0] && LexLess(a[1..], b[1..])))
  }

  lemma {:induction false} LexIrreflexive(a: string)
    ensures !LexLess(a, a)
    decreases |a|
  {
    if |a| > 0 {
      LexIrreflexive(a[1..]);
    }
  }

  lemma {:induction false} LexTotal(a: string, b: string)
    requires a != b
    ensures LexLess(a, b) || LexLess(b, a)
    decreases |a|
  {
    if |a| > 0 && |b| > 0 && a[0] == b[0] {
      assert a == [a[0]] + a[1..] && b == [b[0]] + b[1..];
      LexTotal(a[1..], b[1..]);
    }
  }

  lemma {:induction false} LexTransitive(a: string, b: string, c: string)
    requires LexLess(a, b) && LexLess(b, c)
    ensures LexLess(a, c)
    decreases |a|
  {
    if |a| > 0 && a[0] == b[0] && b[0] == c[0] {
      LexTransitive(a[1..], b[1..], c[1..]);
    }
  }

  // ---------------------------------------------------------------------
  // Numbers: String(n) and parseInt(s)

  predicate IsDecimalDigit(c: char)
  {
    '0' <= c <= '9'
  }

  /** A digit of radix 10 or 16, as `parseInt` accepts them. */
  predicate IsDigitIn(c: char, radix: nat)
  {
    if radix == 16 then IsDecimalDigit(c) || 'a' <= c <= 'f' || 'A' <= c <= 'F'
    else IsDecimalDigit(c)
  }

  function DigitValue(c: char): nat
  {
    if IsDecimalDigit(c) then (c as int - '0' as int) as nat
    else if 'a' <= c <= 'f' then (c as int - 'a' as int + 10) as nat
    else if 'A' <= c <= 'F' then (c as int - 'A' as int + 10) as nat
    else 0
  }

  predicate AllDigits(d: string, radix: nat)
  {
    forall i | 0 <= i < |d| :: IsDigitIn(d[i], radix)
  }

  /** The longest prefix of `s` made of `radix` digits. */
  function DigitRun(s: string, radix: nat): (d: string)
    ensures d <= s
    ensures AllDigits(d, radix)
    ensures |d| < |s| ==> !IsDigitIn(s[|d|], radix)
    decreases |s|
  {
    if |s| > 0 && IsDigitIn(s[0], radix) then [s[0]] + DigitRun(s[1..], radix) else ""
  }

  /** The number a digit string denotes, read most significant digit first. */
  function ValueOf(d: string, radix: nat): nat
  {
    if |d| == 0 then 0 else ValueOf(d[..|d| - 1], radix) * radix + DigitValue(d[|d| - 1])
  }

  function DigitChar(n: nat): char
    requires n < 10
  {
    ('0' as int + n) as char
  }

  /** `String(n)` for a natural number: its decimal digits, no leading zero. */
  function DecimalString(n: nat): (r: string)
    ensures |r| >= 1
    ensures AllDigits(r, 10)
    ensures r[0] == '0' ==> n == 0
    decreases n
  {
    if n < 10 then [DigitChar(n)] else DecimalString(n / 10) + [DigitChar(n % 10)]
  }

  /** `String(i)` for an integer. */
  function IntToString(i: int): string
  {
    if i < 0 then "-" + DecimalString(-i) else DecimalString(i)
  }

  /** `parseInt(s)` with no radix: skip leading spaces, take an optional sign,
      switch to radix 16 after a `0x`/`0X` prefix, then read the longest run
      of digits. `None` stands for NaN (no digit where one was needed). */
  function ParseInt(s: string): Option<int>
  {
    ParseSigned(TrimStart(s))
  }

  function ParseSigned(t: string): Option<int>
  {
    if |t| > 0 && t[0] == '-' then
      match ParseMagnitude(t[1..])
      case None => None
      case Some(v) => Some(-v)
    else if |t| > 0 && t[0] == '+' then ParseMagnitude(t[1..])
    else ParseMagnitude(t)
  }

  function ParseMagnitude(u: string): Option<int>
  {
    if |u| >= 2 && u[0] == '0' && (u[1] == 'x' || u[1] == 'X') then ParseDigits(u[2..], 16)
    else ParseDigits(u, 10)
  }

  function ParseDigits(u: string, radix: nat): Option<int>
  {
    var run := DigitRun(u, radix);
    if run == "" then None else Some(ValueOf(run, radix))
  }

  lemma {:induction false} DigitRunOfDigits(d: string, radix: nat)
    requires AllDigits(d, radix)
    ensures DigitRun(d, radix) == d
    decreases |d|
  {
    if |d| > 0 {
      DigitRunOfDigits(d[1..], radix);
      assert [d[0]] + d[1..] == d;
    }
  }

  /** Decimal digits read back give the number. */
  lemma {:induction false} DecimalStringValue(n: nat)
    ensures ValueOf(DecimalString(n), 10) == n
    decreases n
  {
    if n >= 10 {
      DecimalStringValue(n / 10);
      var d := DecimalString(n / 10) + [DigitChar(n % 10)];
      assert d[..|d| - 1] == DecimalString(n / 10);
    }
  }

  /** The digits of `n` read back, with no hexadecimal prefix to confuse. */
  lemma MagnitudeOfDecimal(n: nat)
    ensures ParseMagnitude(DecimalString(n)) == Some(n)
  {
    var d := DecimalString(n);
    DigitRunOfDigits(d, 10);
    DecimalStringValue(n);
    assert ParseDigits(d, 10) == Some(n);
    if n == 0 {
      assert d == "0";
    } else {
      assert d[0] != '0';
    }
  }

  /** A text that starts with a digit or a sign has no spaces to skip. */
  lemma TrimStartOfDigitOrSign(s: string)
    requires |s| > 0 && (s[0] == '-' || IsDecimalDigit(s[0]))
    ensures TrimStart(s) == s
  {
    assert s[0] as int < 0x3A;
    assert !IsSpace(s[0]);
  }

  /** `parseInt(String(i)) === i` for every integer. */
  lemma ParseIntOfIntToString(i: int)
    ensures ParseInt(IntToString(i)) == Some(i)
  {
    var n: nat := if i < 0 then -i else i;
    var d := DecimalString(n);
    MagnitudeOfDecimal(n);
    if i < 0 {
      var s := "-" + d;
      assert s[1..] == d;
      TrimStartOfDigitOrSign(s);
      assert ParseSigned(s) == Some(i);
    } else {
      assert IsDecimalDigit(d[0]);
      TrimStartOfDigitOrSign(d);
      assert ParseSigned(d) == Some(i);
    }
  }

  lemma MagnitudeWithoutLeadingDigit(u: string)
    requires u == "" || !IsDecimalDigit(u[0])
    ensures ParseMagnitude(u) == None
  {
    if u != "" {
      assert u[0] != '0';
    }
  }

  /** A text with no decimal digit at all parses to NaN. */
  lemma ParseIntWithoutDigits(s: string)
    requires forall i | 0 <= i < |s| :: !IsDecimalDigit(s[i])
    ensures ParseInt(s) == None
  {
    var t := TrimStart(s);
    if |t| > 1 {
      assert t[1] == s[|s| - |t| + 1];
      MagnitudeWithoutLeadingDigit(t[1..]);
    } else if |t| == 1 {
      MagnitudeWithoutLeadingDigit(t[1..]);
    }
    if |t| > 0 {
      assert t[0] == s[|s| - |t|];
    }
    MagnitudeWithoutLeadingDigit(t);
  }
}
