/** LIKE matching with backslash as the escape character, and the escaping that turns a search term into text. */
module Like {

  /** Doubles the escape and escapes the two wildcards; every other character stands for itself. */
  function EscapeLike(s: string): string {
    if s == "" then ""
    else (if s[0] in {'\\', '%', '_'} then ['\\', s[0]] else [s[0]]) + EscapeLike(s[1..])
  }

  /** pattern ILIKE: fold is the case folding, applied character by character to what is compared literally. */
  ghost predicate Matches(pattern: string, text: string, fold: char -> char)
    decreases |pattern|, |text|
  {
    if pattern == "" then text == ""
    else if pattern[0] == '%' then exists i :: 0 <= i <= |text| && Matches(pattern[1..], text[i..], fold)
    else if pattern[0] == '_' then text != "" && Matches(pattern[1..], text[1..], fold)
    else if pattern[0] == '\\' then
      |pattern| > 1 && text != "" && fold(pattern[1]) == fold(text[0]) && Matches(pattern[2..], text[1..], fold)
    else text != "" && fold(pattern[0]) == fold(text[0]) && Matches(pattern[1..], text[1..], fold)
  }

  /** A pattern that ends in a lone escape is an error for the database. */
  predicate Terminated(pattern: string) {
    if pattern == "" then true
    else if pattern[0] == '\\' then |pattern| > 1 && Terminated(pattern[2..])
    else Terminated(pattern[1..])
  }

  ghost predicate StartsWith(t: string, s: string, fold: char -> char) {
    |s| <= |t| && forall i :: 0 <= i < |s| ==> fold(s[i]) == fold(t[i])
  }

  /** s occurs in t as a contiguous run of characters, up to case. */
  ghost predicate Contains(t: string, s: string, fold: char -> char) {
    exists i :: 0 <= i <= |t| && StartsWith(t[i..], s, fold)
  }

  lemma {:induction false} StartsWithStep(t: string, s: string, fold: char -> char)
    requires s != ""
    ensures StartsWith(t, s, fold) <==> t != "" && fold(s[0]) == fold(t[0]) && StartsWith(t[1..], s[1..], fold)
  {
    if t != "" && fold(s[0]) == fold(t[0]) && StartsWith(t[1..], s[1..], fold) {
      forall i | 0 <= i < |s| ensures fold(s[i]) == fold(t[i]) {
        if i > 0 { assert fold(s[1..][i - 1]) == fold(t[1..][i - 1]); }
      }
    }
  }

  /** An escaped term followed by a wildcard matches exactly the texts that start with the term. */
  lemma {:induction false} EscapedPrefix(s: string, t: string, fold: char -> char)
    ensures Matches(EscapeLike(s) + "%", t, fold) <==> StartsWith(t, s, fold)
    decreases |s|
  {
    var pattern := EscapeLike(s) + "%";
    if s == "" {
      assert pattern == "%" && t[|t|..] == "";
      assert Matches("", t[|t|..], fold);
      assert Matches("%"[1..], t[|t|..], fold);
    } else {
      var rest := EscapeLike(s[1..]) + "%";
      StartsWithStep(t, s, fold);
      if t != "" {
        EscapedPrefix(s[1..], t[1..], fold);
      }
      if s[0] in {'\\', '%', '_'} {
        assert pattern == ['\\', s[0]] + rest;
        assert pattern[2..] == rest;
      } else {
        assert pattern == [s[0]] + rest;
        assert pattern[1..] == rest;
      }
    }
  }

  function SearchPattern(s: string): string {
    "%" + EscapeLike(s) + "%"
  }

  /** The search pattern means containment, for every term, wildcards and escapes in it included. */
  lemma {:induction false} SearchMeansContains(s: string, t: string, fold: char -> char)
    ensures Matches(SearchPattern(s), t, fold) <==> Contains(t, s, fold)
  {
    var pattern := SearchPattern(s);
    var rest := EscapeLike(s) + "%";
    assert pattern == "%" + rest && pattern[1..] == rest;
    forall i | 0 <= i <= |t| ensures Matches(rest, t[i..], fold) <==> StartsWith(t[i..], s, fold) {
      EscapedPrefix(s, t[i..], fold);
    }
  }

  /** And it is always a pattern the database accepts. */
  lemma {:induction false} SearchPatternTerminated(s: string)
    ensures Terminated(SearchPattern(s))
  {
    EscapedTerminated(s);
    assert SearchPattern(s)[1..] == EscapeLike(s) + "%";
  }

  lemma {:induction false} EscapedTerminated(s: string)
    ensures Terminated(EscapeLike(s) + "%")
  {
    var pattern := EscapeLike(s) + "%";
    if s == "" {
      assert pattern == "%" && pattern[1..] == "";
    } else {
      EscapedTerminated(s[1..]);
      var rest := EscapeLike(s[1..]) + "%";
      if s[0] in {'\\', '%', '_'} {
        assert pattern == ['\\', s[0]] + rest && pattern[2..] == rest;
      } else {
        assert pattern == [s[0]] + rest && pattern[1..] == rest;
      }
    }
  }

  /** An underscore matches any one character and only one; an escaped one only itself, up to case. */
  lemma {:induction false} UnderscoreMatchesOne(t: string, fold: char -> char)
    ensures Matches("_", t, fold) <==> |t| == 1
    ensures Matches("\\_", t, fold) <==> |t| == 1 && fold('_') == fold(t[0])
  {
    assert "_"[1..] == "" && "\\_"[2..] == "";
  }

  /** Without the escaping, a percent sign typed by a user matches everything. */
  lemma {:induction false} UnescapedMatchesAll(t: string, fold: char -> char)
    ensures Matches("%" + "%" + "%", t, fold)
  {
    assert "%%%"[1..] == "%%" && "%%"[1..] == "%" && "%"[1..] == "";
    assert t[|t|..] == "" && t[0..] == t;
    assert Matches("", t[|t|..], fold);
    assert Matches("%", t, fold);
    assert Matches("%", t[0..], fold);
    assert Matches("%%", t, fold);
    assert Matches("%%", t[0..], fold);
  }
}
