/** The two pure rules the post routes apply to every submitted post: the
    slug derived from the title (`generateSlug`) and the reading time derived
    from the content. */
module PostRules {
  import opened JsText

  // ---------------------------------------------------------------------
  // Slugs

  /** The class `[a-z0-9]` of the slug regular expression. */
  predicate IsSlugChar(c: char)
  {
    'a' <= c <= 'z' || '0' <= c <= '9'
  }

  /** `toLowerCase` on one character, for the ASCII letters. */
  function LowerAscii(c: char): char
  {
    if 'A' <= c <= 'Z' then (c as int + 32) as char else c
  }

  function LowerCase(s: string): (r: string)
    ensures |r| == |s|
    ensures forall i | 0 <= i < |s| :: r[i] == LowerAscii(s[i])
  {
    seq(|s|, i requires 0 <= i < |s| => LowerAscii(s[i]))
  }

  predicate NoDoubleHyphen(s: string)
  {
    forall i | 0 <= i < |s| - 1 :: !(s[i] == '-' && s[i + 1] == '-')
  }

  /** Every character is in `[a-z0-9-]`. */
  predicate SlugAlphabet(s: string)
  {
    forall i | 0 <= i < |s| :: IsSlugChar(s[i]) || s[i] == '-'
  }

  /** The shape of every slug `generateSlug` can produce. */
  predicate IsSlug(s: string)
  {
    && SlugAlphabet(s)
    && NoDoubleHyphen(s)
    && (s == "" || (s[0] != '-' && s[|s| - 1] != '-'))
  }

  /** Drops the run of characters outside `[a-z0-9]` at the front of `s`. */
  function SkipSeparators(s: string): (r: string)
    ensures |r| <= |s| && r == s[|s| - |r|..]
    ensures forall i | 0 <= i < |s| - |r| :: !IsSlugChar(s[i])
    ensures r == "" || IsSlugChar(r[0])
    decreases |s|
  {
    if |s| > 0 && !IsSlugChar(s[0]) then SkipSeparators(s[1..]) else s
  }

  /** `.replace(/[^a-z0-9]+/g, '-')`: every maximal run of characters outside
      `[a-z0-9]` becomes a single hyphen. */
  function CollapseSeparators(s: string): (r: string)
    ensures SlugAlphabet(r)
    ensures NoDoubleHyphen(r)
    ensures |s| > 0 && IsSlugChar(s[0]) ==> |r| > 0 && r[0] == s[0]
    decreases |s|
  {
    if |s| == 0 then ""
    else if IsSlugChar(s[0]) then [s[0]] + CollapseSeparators(s[1..])
    else "-" + CollapseSeparators(SkipSeparators(s[1..]))
  }

  function DropLeadingHyphens(s: string): (r: string)
    ensures |r| <= |s| && r == s[|s| - |r|..]
    ensures r == "" || r[0] != '-'
    decreases |s|
  {
    if |s| > 0 && s[0] == '-' then DropLeadingHyphens(s[1..]) else s
  }

  function DropTrailingHyphens(s: string): (r: string)
    ensures |r| <= |s| && r == s[..|r|]
    ensures r == "" || r[|r| - 1] != '-'
    decreases |s|
  {
    if |s| > 0 && s[|s| - 1] == '-' then DropTrailingHyphens(s[..|s| - 1]) else s
  }

  /** `.replace(/^-+|-+$/g, '')`. */
  function TrimHyphens(s: string): string
  {
    DropTrailingHyphens(DropLeadingHyphens(s))
  }

  lemma SliceKeepsSlugShape(c: string, lo: int, hi: int)
    requires 0 <= lo <= hi <= |c| && SlugAlphabet(c) && NoDoubleHyphen(c)
    ensures SlugAlphabet(c[lo..hi]) && NoDoubleHyphen(c[lo..hi])
  {
    var w := c[lo..hi];
    forall i | 0 <= i < |w| ensures IsSlugChar(w[i]) || w[i] == '-' {
      assert w[i] == c[lo + i];
    }
    forall i | 0 <= i < |w| - 1 ensures !(w[i] == '-' && w[i + 1] == '-') {
      assert w[i] == c[lo + i] && w[i + 1] == c[lo + i + 1];
    }
  }

  /** Trimming the hyphens of collapsed text leaves a slug. */
  lemma TrimHyphensIsSlug(c: string)
    requires SlugAlphabet(c) && NoDoubleHyphen(c)
    ensures IsSlug(TrimHyphens(c))
  {
    var d := DropLeadingHyphens(c);
    var t := DropTrailingHyphens(d);
    var k := |c| - |d|;
    assert d == c[k..];
    assert t == d[..|t|];
    assert t == c[k..k + |t|];
    SliceKeepsSlugShape(c, k, k + |t|);
    if |t| > 0 {
      assert t[0] == d[0];
    }
  }

  /** `generateSlug(title)` (routes/posts.js): lower-case, collapse every run
      of characters outside `[a-z0-9]` into one hyphen, trim hyphens. */
  function GenerateSlug(title: string): (slug: string)
    ensures IsSlug(slug)
  {
    var c := CollapseSeparators(LowerCase(title));
    TrimHyphensIsSlug(c);
    TrimHyphens(c)
  }

  // --- the words view of a slug

  /** The longest prefix of `s` inside `[a-z0-9]`. */
  function SlugCharRun(s: string): (w: string)
    ensures w <= s
    ensures forall i | 0 <= i < |w| :: IsSlugChar(w[i])
    ensures |w| < |s| ==> !IsSlugChar(s[|w|])
    decreases |s|
  {
    if |s| > 0 && IsSlugChar(s[0]) then [s[0]] + SlugCharRun(s[1..]) else ""
  }

  /** The maximal runs of `[a-z0-9]` characters of `s`, in order. */
  function Words(s: string): (ws: seq<string>)
    ensures forall k | 0 <= k < |ws| :: ws[k] != ""
    decreases |s|
  {
    if |s| == 0 then []
    else if !IsSlugChar(s[0]) then Words(s[1..])
    else
      var w := SlugCharRun(s);
      [w] + Words(s[|w|..])
  }

  predicate EndsWithSeparator(s: string)
  {
    |s| > 0 && !IsSlugChar(s[|s| - 1])
  }

  lemma {:induction false} WordsSkipSeparators(s: string)
    ensures Words(SkipSeparators(s)) == Words(s)
    decreases |s|
  {
    if |s| > 0 && !IsSlugChar(s[0]) {
      WordsSkipSeparators(s[1..]);
    }
  }

  lemma {:induction false} CollapseRun(w: string, rest: string)
    requires forall i | 0 <= i < |w| :: IsSlugChar(w[i])
    ensures CollapseSeparators(w + rest) == w + CollapseSeparators(rest)
    decreases |w|
  {
    if |w| > 0 {
      var s := w + rest;
      assert s[0] == w[0] && IsSlugChar(s[0]);
      assert s[1..] == w[1..] + rest;
      forall i | 0 <= i < |w[1..]| ensures IsSlugChar(w[1..][i]) {
        assert w[1..][i] == w[i + 1];
      }
      CollapseRun(w[1..], rest);
      var c := CollapseSeparators(rest);
      assert CollapseSeparators(s) == [w[0]] + CollapseSeparators(s[1..]);
      ConcatAssoc([w[0]], w[1..], c);
      assert [w[0]] + w[1..] == w;
    } else {
      assert w + rest == rest;
    }
  }

  lemma AllSeparatorsEnd(s: string)
    requires |s| > 0
    requires SkipSeparators(s) == ""
    ensures EndsWithSeparator(s)
  {
  }

  lemma JoinStep(w: string, ws: seq<string>, tail: string)
    requires |ws| > 0
    ensures w + ("-" + (JoinWith(ws, "-") + tail)) == JoinWith([w] + ws, "-") + tail
  {
    var l := [w] + ws;
    assert l[0] == w && l[1..] == ws;
    var j := JoinWith(ws, "-");
    assert JoinWith(l, "-") == w + "-" + j;
    ConcatAssoc("-", j, tail);
    ConcatAssoc(w, "-" + j, tail);
    ConcatAssoc(w, "-", j);
  }

  /** A word followed by a separator run that reaches the end of the text. */
  lemma WordThenFinalSeparators(s: string, w: string, rest: string)
    requires s == w + rest
    requires |rest| > 0 && !IsSlugChar(rest[0])
    requires SkipSeparators(rest[1..]) == ""
    ensures CollapseSeparators(rest) == "-"
    ensures EndsWithSeparator(s)
    ensures Words(rest) == []
  {
    WordsSkipSeparators(rest[1..]);
    if |rest[1..]| > 0 {
      AllSeparatorsEnd(rest[1..]);
      assert s[|s| - 1] == rest[1..][|rest[1..]| - 1];
    }
  }

  /** On text that starts inside a word, collapsing gives the words joined by
      hyphens, plus one hyphen when the text ends in a separator run. */
  lemma {:induction false} CollapseFromWord(s: string)
    requires |s| > 0 && IsSlugChar(s[0])
    ensures |Words(s)| > 0
    ensures CollapseSeparators(s)
         == JoinWith(Words(s), "-") + (if EndsWithSeparator(s) then "-" else "")
    decreases |s|
  {
    var w := SlugCharRun(s);
    var rest := s[|w|..];
    assert s == w + rest;
    CollapseRun(w, rest);
    assert Words(s) == [w] + Words(rest);
    if rest == "" {
      assert s == w;
      assert Words(rest) == [];
    } else {
      var r2 := SkipSeparators(rest[1..]);
      assert CollapseSeparators(rest) == "-" + CollapseSeparators(r2);
      if r2 == "" {
        WordThenFinalSeparators(s, w, rest);
      } else {
        WordsSkipSeparators(rest[1..]);
        assert Words(rest) == Words(r2);
        CollapseFromWord(r2);
        assert s[|s| - 1] == r2[|r2| - 1];
        var tail := if EndsWithSeparator(r2) then "-" else "";
        JoinStep(w, Words(r2), tail);
      }
    }
  }

  lemma JoinedWordsEdges(ws: seq<string>)
    requires |ws| > 0
    requires forall k | 0 <= k < |ws| :: ws[k] != "" && SlugCharRun(ws[k]) == ws[k]
    ensures var j := JoinWith(ws, "-"); |j| > 0 && j[0] != '-' && j[|j| - 1] != '-'
  {
    JoinedWordsLast(ws);
    assert ws[0] <= JoinWith(ws, "-") by {
      if |ws| > 1 {
        assert JoinWith(ws, "-") == ws[0] + ("-" + JoinWith(ws[1..], "-"));
      }
    }
    assert ws[0][0] == JoinWith(ws, "-")[0];
  }

  lemma {:induction false} JoinedWordsLast(ws: seq<string>)
    requires |ws| > 0
    requires forall k | 0 <= k < |ws| :: ws[k] != "" && SlugCharRun(ws[k]) == ws[k]
    ensures var j := JoinWith(ws, "-"); |j| > 0 && j[|j| - 1] != '-'
    decreases |ws|
  {
    if |ws| > 1 {
      JoinedWordsLast(ws[1..]);
    } else {
      var w := ws[0];
      assert forall i | 0 <= i < |w| :: IsSlugChar(w[i]);
    }
  }

  lemma {:induction false} WordsAreRuns(s: string)
    ensures forall k | 0 <= k < |Words(s)| :: SlugCharRun(Words(s)[k]) == Words(s)[k]
    decreases |s|
  {
    if |s| > 0 {
      if !IsSlugChar(s[0]) {
        WordsAreRuns(s[1..]);
      } else {
        var w := SlugCharRun(s);
        WordsAreRuns(s[|w|..]);
        RunOfRun(w);
      }
    }
  }

  lemma {:induction false} RunOfRun(w: string)
    requires forall i | 0 <= i < |w| :: IsSlugChar(w[i])
    ensures SlugCharRun(w) == w
    decreases |w|
  {
    if |w| > 0 {
      RunOfRun(w[1..]);
      assert [w[0]] + w[1..] == w;
    }
  }

  /** An independent description of `generateSlug`: the maximal runs of
      `[a-z0-9]` in the lower-cased title, joined by single hyphens. */
  lemma SlugIsJoinedWords(title: string)
    ensures GenerateSlug(title) == JoinWith(Words(LowerCase(title)), "-")
  {
    var s := LowerCase(title);
    assert GenerateSlug(title) == TrimHyphens(CollapseSeparators(s));
    if |s| > 0 {
      if IsSlugChar(s[0]) {
        SlugFromWord(s, "");
      } else {
        var start := SkipSeparators(s[1..]);
        WordsSkipSeparators(s[1..]);
        assert Words(s) == Words(start);
        assert CollapseSeparators(s) == "-" + CollapseSeparators(start);
        if start != "" {
          SlugFromWord(start, "-");
        }
      }
    }
  }

  /** Trimming after collapsing, when the text (minus an optional leading
      separator run, collapsed to `lead`) starts inside a word. */
  lemma SlugFromWord(start: string, lead: string)
    requires |start| > 0 && IsSlugChar(start[0])
    requires lead == "" || lead == "-"
    ensures TrimHyphens(lead + CollapseSeparators(start)) == JoinWith(Words(start), "-")
  {
    CollapseFromWord(start);
    WordsAreRuns(start);
    JoinedWordsEdges(Words(start));
    var j := JoinWith(Words(start), "-");
    var tail := if EndsWithSeparator(start) then "-" else "";
    assert |j| > 0 && j[0] != '-' && j[|j| - 1] != '-';
    TrimAround(lead, j, tail);
    assert CollapseSeparators(start) == j + tail;
    ConcatAssoc(lead, j, tail);
  }

  lemma TrimAround(lead: string, j: string, tail: string)
    requires lead == "" || lead == "-"
    requires tail == "" || tail == "-"
    requires |j| > 0 && j[0] != '-' && j[|j| - 1] != '-'
    ensures TrimHyphens(lead + j + tail) == j
  {
    var jt := j + tail;
    ConcatAssoc(lead, j, tail);
    assert jt[0] == j[0];
    assert DropLeadingHyphens(jt) == jt;
    if lead == "-" {
      assert (lead + jt)[1..] == jt;
    } else {
      assert lead + jt == jt;
    }
    assert DropLeadingHyphens(lead + jt) == jt;
    if tail == "-" {
      assert jt[|jt| - 1] == '-';
      assert jt[..|jt| - 1] == j;
      assert DropTrailingHyphens(j) == j;
      assert DropTrailingHyphens(jt) == DropTrailingHyphens(j);
    } else {
      assert jt == j;
    }
  }

  lemma {:induction false} CollapseOfSlugAlphabet(s: string)
    requires SlugAlphabet(s) && NoDoubleHyphen(s)
    ensures CollapseSeparators(s) == s
    decreases |s|
  {
    if |s| > 0 {
      assert SlugAlphabet(s[1..]) && NoDoubleHyphen(s[1..]) by {
        assert forall i | 0 <= i < |s[1..]| :: s[1..][i] == s[i + 1];
      }
      if !IsSlugChar(s[0]) {
        assert s[1..] == "" || IsSlugChar(s[1..][0]);
        assert SkipSeparators(s[1..]) == s[1..];
      }
      CollapseOfSlugAlphabet(s[1..]);
      assert [s[0]] + s[1..] == s;
    }
  }

  /** A slug is left unchanged by `generateSlug`. */
  lemma SlugIsFixpoint(s: string)
    requires IsSlug(s)
    ensures GenerateSlug(s) == s
  {
    assert LowerCase(s) == s;
    CollapseOfSlugAlphabet(s);
  }

  /** `generateSlug` is idempotent. */
  lemma GenerateSlugIdempotent(title: string)
    ensures GenerateSlug(GenerateSlug(title)) == GenerateSlug(title)
  {
    SlugIsFixpoint(GenerateSlug(title));
  }

  // --- slugs of titles built from known words and separators

  predicate SlugWord(w: string)
  {
    w != "" && forall i | 0 <= i < |w| :: IsSlugChar(w[i])
  }

  predicate SeparatorRun(s: string)
  {
    forall i | 0 <= i < |s| :: !IsSlugChar(s[i])
  }

  /** `seps[0] + ws[0] + seps[1] + ... + ws[n-1] + seps[n]`. */
  function Interleave(seps: seq<string>, ws: seq<string>): string
    requires |seps| == |ws| + 1
    decreases |ws|
  {
    if |ws| == 0 then seps[0] else seps[0] + ws[0] + Interleave(seps[1..], ws[1..])
  }

  /** Words separated (and optionally surrounded) by separator runs. */
  predicate WellSeparated(seps: seq<string>, ws: seq<string>)
  {
    && |seps| == |ws| + 1
    && (forall k | 0 <= k < |ws| :: SlugWord(ws[k]))
    && (forall k | 0 <= k < |seps| :: SeparatorRun(seps[k]))
    && (forall k | 0 < k < |ws| :: seps[k] != "")
  }

  lemma {:induction false} WordsAfterSeparators(sep: string, rest: string)
    requires SeparatorRun(sep)
    ensures Words(sep + rest) == Words(rest)
    decreases |sep|
  {
    if |sep| > 0 {
      assert (sep + rest)[0] == sep[0];
      assert (sep + rest)[1..] == sep[1..] + rest;
      assert SeparatorRun(sep[1..]) by {
        assert forall i | 0 <= i < |sep[1..]| :: sep[1..][i] == sep[i + 1];
      }
      WordsAfterSeparators(sep[1..], rest);
    } else {
      assert sep + rest == rest;
    }
  }

  lemma WordThenSeparator(w: string, rest: string)
    requires SlugWord(w)
    requires rest == "" || !IsSlugChar(rest[0])
    ensures Words(w + rest) == [w] + Words(rest)
  {
    var s := w + rest;
    assert s[0] == w[0];
    RunOfWordThenSeparator(w, rest);
    assert s[|w|..] == rest;
  }

  lemma {:induction false} RunOfWordThenSeparator(w: string, rest: string)
    requires forall i | 0 <= i < |w| :: IsSlugChar(w[i])
    requires rest == "" || !IsSlugChar(rest[0])
    ensures SlugCharRun(w + rest) == w
    decreases |w|
  {
    if |w| > 0 {
      assert (w + rest)[0] == w[0];
      assert (w + rest)[1..] == w[1..] + rest;
      assert forall i | 0 <= i < |w[1..]| :: IsSlugChar(w[1..][i]) by {
        assert forall i | 0 <= i < |w[1..]| :: w[1..][i] == w[i + 1];
      }
      RunOfWordThenSeparator(w[1..], rest);
      assert [w[0]] + w[1..] == w;
    } else {
      assert w + rest == rest;
    }
  }

  lemma {:induction false} WordsOfInterleave(seps: seq<string>, ws: seq<string>)
    requires WellSeparated(seps, ws)
    ensures Words(Interleave(seps, ws)) == ws
    decreases |ws|
  {
    if |ws| == 0 {
      WordsAfterSeparators(seps[0], "");
      assert seps[0] + "" == seps[0];
    } else {
      var rest := Interleave(seps[1..], ws[1..]);
      assert WellSeparated(seps[1..], ws[1..]) by {
        assert forall k | 0 <= k < |ws[1..]| :: ws[1..][k] == ws[k + 1];
        assert forall k | 0 <= k < |seps[1..]| :: seps[1..][k] == seps[k + 1];
      }
      WordsOfInterleave(seps[1..], ws[1..]);
      assert rest == "" || !IsSlugChar(rest[0]) by {
        if |ws| == 1 {
          assert rest == seps[1];
        } else {
          assert seps[1] != "";
          ConcatAssoc(seps[1], ws[1], Interleave(seps[2..], ws[2..]));
          assert seps[1..][1..] == seps[2..] && ws[1..][1..] == ws[2..];
          assert rest[0] == seps[1][0];
        }
      }
      WordThenSeparator(ws[0], rest);
      ConcatAssoc(seps[0], ws[0], rest);
      WordsAfterSeparators(seps[0], ws[0] + rest);
      assert ws == [ws[0]] + ws[1..];
    }
  }

  /** Whatever separator runs stand between and around the words of a title,
      its slug is those words joined by single hyphens. */
  lemma SlugOfSeparatedWords(title: string, seps: seq<string>, ws: seq<string>)
    requires WellSeparated(seps, ws)
    requires LowerCase(title) == Interleave(seps, ws)
    ensures GenerateSlug(title) == JoinWith(ws, "-")
  {
    SlugIsJoinedWords(title);
    WordsOfInterleave(seps, ws);
  }

  lemma HelloLower()
    ensures LowerCase("Hello, World!") == "hello, world!"
  {
  }

  lemma HelloInterleave()
    ensures Interleave(["", ", ", "!"], ["hello", "world"]) == "hello, world!"
  {
    var seps := ["", ", ", "!"];
    var ws := ["hello", "world"];
    assert Interleave(seps[2..], ws[2..]) == "!";
    assert Interleave(seps[1..], ws[1..]) == ", world!";
  }

  lemma HelloSeparated()
    ensures WellSeparated(["", ", ", "!"], ["hello", "world"])
  {
    var seps := ["", ", ", "!"];
    assert SeparatorRun(seps[1]) && SeparatorRun(seps[2]);
  }

  lemma HelloJoin()
    ensures JoinWith(["hello", "world"], "-") == "hello-world"
  {
  }

  lemma SpacesLower()
    ensures LowerCase("  Multiple   Spaces  ") == "  multiple   spaces  "
  {
  }

  lemma SpacesInterleave()
    ensures Interleave(["  ", "   ", "  "], ["multiple", "spaces"]) == "  multiple   spaces  "
  {
    var seps := ["  ", "   ", "  "];
    var ws := ["multiple", "spaces"];
    assert Interleave(seps[2..], ws[2..]) == "  ";
    assert Interleave(seps[1..], ws[1..]) == "   spaces  ";
  }

  lemma SpacesSeparated()
    ensures WellSeparated(["  ", "   ", "  "], ["multiple", "spaces"])
  {
    var seps := ["  ", "   ", "  "];
    assert SeparatorRun(seps[0]) && SeparatorRun(seps[1]) && SeparatorRun(seps[2]);
  }

  lemma SpacesJoin()
    ensures JoinWith(["multiple", "spaces"], "-") == "multiple-spaces"
  {
  }

  lemma WelcomeLower()
    ensures LowerCase("Welcome to Your New Blog") == "welcome to your new blog"
  {
  }

  lemma WelcomeInterleave()
    ensures Interleave(["", " ", " ", " ", " ", ""], ["welcome", "to", "your", "new", "blog"])
         == "welcome to your new blog"
  {
    var seps := ["", " ", " ", " ", " ", ""];
    var ws := ["welcome", "to", "your", "new", "blog"];
    assert Interleave(seps[5..], ws[5..]) == "";
    assert Interleave(seps[4..], ws[4..]) == " blog";
    assert Interleave(seps[3..], ws[3..]) == " new blog";
    assert Interleave(seps[2..], ws[2..]) == " your new blog";
    assert Interleave(seps[1..], ws[1..]) == " to your new blog";
  }

  lemma WelcomeSeparated()
    ensures WellSeparated(["", " ", " ", " ", " ", ""], ["welcome", "to", "your", "new", "blog"])
  {
    var seps := ["", " ", " ", " ", " ", ""];
    assert SeparatorRun(seps[1]);
  }

  lemma WelcomeJoin()
    ensures JoinWith(["welcome", "to", "your", "new", "blog"], "-") == "welcome-to-your-new-blog"
  {
  }

  /** Punctuation between and after words collapses into single hyphens. */
  lemma SlugExamplePunctuation()
    ensures GenerateSlug("Hello, World!") == "hello-world"
  {
    HelloLower();
    HelloInterleave();
    HelloSeparated();
    HelloJoin();
    SlugOfSeparatedWords("Hello, World!", ["", ", ", "!"], ["hello", "world"]);
  }

  /** Space runs around and between words leave no stray hyphens. */
  lemma SlugExampleSpaces()
    ensures GenerateSlug("  Multiple   Spaces  ") == "multiple-spaces"
  {
    SpacesLower();
    SpacesInterleave();
    SpacesSeparated();
    SpacesJoin();
    SlugOfSeparatedWords("  Multiple   Spaces  ", ["  ", "   ", "  "], ["multiple", "spaces"]);
  }

  /** The title of the seeded sample post slugs to the seeded slug. */
  lemma SampleTitleSlug()
    ensures GenerateSlug("Welcome to Your New Blog") == "welcome-to-your-new-blog"
  {
    WelcomeLower();
    WelcomeInterleave();
    WelcomeSeparated();
    WelcomeJoin();
    SlugOfSeparatedWords("Welcome to Your New Blog",
      ["", " ", " ", " ", " ", ""], ["welcome", "to", "your", "new", "blog"]);
  }

  // ---------------------------------------------------------------------
  // Reading time

  /** `s.split(/\s+/)`: the pieces between maximal runs of `\s`, with an empty
      piece before a leading run and after a trailing one. */
  function SplitOnSpaceRuns(s: string): (parts: seq<string>)
    ensures |parts| >= 1
    ensures forall k | 0 <= k < |parts| :: NoSpace(parts[k])
    decreases |s|
  {
    if |s| == 0 then [""]
    else if IsSpace(s[0]) then [""] + SplitOnSpaceRuns(TrimStart(s))
    else
      var rest := SplitOnSpaceRuns(s[1..]);
      [[s[0]] + rest[0]] + rest[1..]
  }

  /** `content.split(/\s+/).length`. */
  function WordCount(content: string): nat
  {
    |SplitOnSpaceRuns(content)|
  }

  /** `Math.ceil(wordCount / 200)`: the least whole number of minutes at 200
      words a minute; never below one since the word count is at least one. */
  function ReadingTime(content: string): (minutes: nat)
    ensures minutes >= 1
    ensures (minutes - 1) * 200 < WordCount(content) <= minutes * 200
  {
    (WordCount(content) + 199) / 200
  }

  predicate IsWord(w: string)
  {
    w != "" && NoSpace(w)
  }

  lemma {:induction false} SplitWordThenRest(w: string, rest: string)
    requires NoSpace(w)
    requires rest == "" || IsSpace(rest[0])
    ensures SplitOnSpaceRuns(w + rest)
         == [w + SplitOnSpaceRuns(rest)[0]] + SplitOnSpaceRuns(rest)[1..]
    decreases |w|
  {
    if |w| > 0 {
      assert (w + rest)[0] == w[0];
      assert (w + rest)[1..] == w[1..] + rest;
      assert NoSpace(w[1..]) by {
        assert forall i | 0 <= i < |w[1..]| :: w[1..][i] == w[i + 1];
      }
      SplitWordThenRest(w[1..], rest);
      var parts := SplitOnSpaceRuns(rest);
      assert SplitOnSpaceRuns(w + rest)
          == [[w[0]] + (w[1..] + parts[0])] + parts[1..];
      assert [w[0]] + (w[1..] + parts[0]) == ([w[0]] + w[1..]) + parts[0];
      assert [w[0]] + w[1..] == w;
    } else {
      assert w == "";
      assert w + rest == rest;
      var parts := SplitOnSpaceRuns(rest);
      if rest == "" {
        assert parts == [""];
      } else {
        assert parts[0] == "";
      }
      assert w + parts[0] == parts[0];
      assert [parts[0]] + parts[1..] == parts;
    }
  }

  lemma SplitAfterOneSpace(tail: string)
    requires |tail| > 0 && !IsSpace(tail[0])
    ensures SplitOnSpaceRuns(" " + tail) == [""] + SplitOnSpaceRuns(tail)
  {
    var r := " " + tail;
    assert r[0] == ' ' && r[1..] == tail;
    assert TrimStart(r) == TrimStart(tail);
  }

  lemma JoinStartsWithFirst(ws: seq<string>, sep: string)
    requires |ws| >= 1 && |ws[0]| > 0
    ensures |JoinWith(ws, sep)| > 0 && JoinWith(ws, sep)[0] == ws[0][0]
  {
  }

  /** Words separated by single spaces split back into exactly those words. */
  lemma {:induction false} SplitJoinedWords(ws: seq<string>)
    requires |ws| >= 1
    requires forall k | 0 <= k < |ws| :: IsWord(ws[k])
    ensures SplitOnSpaceRuns(JoinWith(ws, " ")) == ws
    decreases |ws|
  {
    if |ws| == 1 {
      SplitWordThenRest(ws[0], "");
      assert ws[0] + "" == ws[0];
    } else {
      var tail := JoinWith(ws[1..], " ");
      SplitJoinedWords(ws[1..]);
      assert IsWord(ws[1..][0]);
      JoinStartsWithFirst(ws[1..], " ");
      SplitAfterOneSpace(tail);
      SplitWordThenRest(ws[0], " " + tail);
      ConcatAssoc(ws[0], " ", tail);
      assert ws[0] + "" == ws[0];
      assert ws == [ws[0]] + ws[1..];
    }
  }

  /** Text made of `n` words separated by single spaces reads in
      `ceil(n / 200)` minutes. */
  lemma ReadingTimeOfWords(ws: seq<string>)
    requires |ws| >= 1
    requires forall k | 0 <= k < |ws| :: IsWord(ws[k])
    ensures WordCount(JoinWith(ws, " ")) == |ws|
    ensures ReadingTime(JoinWith(ws, " ")) == (|ws| + 199) / 200
  {
    SplitJoinedWords(ws);
  }

  /** 400 words take two minutes; a single word takes one. */
  lemma ReadingTimeExamples(ws: seq<string>, w: string)
    requires |ws| == 400
    requires forall k | 0 <= k < |ws| :: IsWord(ws[k])
    requires IsWord(w)
    ensures ReadingTime(JoinWith(ws, " ")) == 2
    ensures ReadingTime(w) == 1
  {
    ReadingTimeOfWords(ws);
    ReadingTimeOfWords([w]);
  }

  /** Even the empty text counts as one word, so it reads in one minute. */
  lemma EmptyContentReadingTime()
    ensures WordCount("") == 1 && ReadingTime("") == 1
  {
  }
}
