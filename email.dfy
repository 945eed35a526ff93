/**
 * `valid_email`: a full match of `\b[A-Za-z0-9._%+-]+@[A-Za-z0-9.-]+\.[A-Z|a-z]{2,}\b`,
 * written out by hand. `EmailPattern` states the pattern as the regular
 * expression reads; `ValidEmail` decides it by looking at the first `@` and
 * the last `.` only.
 */
module Email {
  import opened Wrappers
  import opened Strings
  import opened Numbers

  predicate IsAsciiLetter(c: char) {
    'A' <= c <= 'Z' || 'a' <= c <= 'z'
  }

  /** `[A-Za-z0-9._%+-]` */
  predicate LocalChar(c: char) {
    IsAsciiLetter(c) || IsDigit(c) || c == '.' || c == '_' || c == '%' || c == '+' || c == '-'
  }

  /** `[A-Za-z0-9.-]` */
  predicate DomainChar(c: char) {
    IsAsciiLetter(c) || IsDigit(c) || c == '.' || c == '-'
  }

  /** `[A-Z|a-z]`: the bar is a literal member of the class. */
  predicate TldChar(c: char) {
    IsAsciiLetter(c) || c == '|'
  }

  /** A character `\b` treats as part of a word. */
  predicate IsWordChar(c: char) {
    IsAsciiLetter(c) || IsDigit(c) || c == '_'
  }

  predicate AllLocal(t: string) {
    forall i :: 0 <= i < |t| ==> LocalChar(t[i])
  }

  predicate AllDomain(t: string) {
    forall i :: 0 <= i < |t| ==> DomainChar(t[i])
  }

  predicate AllTld(t: string) {
    forall i :: 0 <= i < |t| ==> TldChar(t[i])
  }

  /**
   * `s` splits as local part, `@` at index `at`, domain, `.` at index `dot` and
   * a top-level part of two or more characters, and both ends of `s` are word
   * characters (the two `\b` anchors).
   */
  ghost predicate EmailSplit(s: string, at: int, dot: int) {
    && 0 < at && at + 1 < dot && dot + 2 < |s|
    && s[at] == '@' && s[dot] == '.'
    && AllLocal(s[..at]) && AllDomain(s[at + 1..dot]) && AllTld(s[dot + 1..])
    && IsWordChar(s[0]) && IsWordChar(s[|s| - 1])
  }

  /** The regular expression matches the whole of `s`. */
  ghost predicate EmailPattern(s: string) {
    exists at, dot :: EmailSplit(s, at, dot)
  }

  /**
   * `valid_email(email_address)` as a truth value. No class of the pattern
   * holds `@` and the last class holds no `.`, so the only split worth trying
   * is at the first `@` and the last `.`.
   */
  function ValidEmail(s: string): (r: bool)
    ensures r <==> EmailPattern(s)
  {
    PatternAtFirstAndLast(s);
    match (FirstIndex(s, '@'), LastIndex(s, '.'))
    case (Some(at), Some(dot)) =>
      var ok := 0 < at && at + 1 < dot && dot + 2 < |s|
        && AllLocal(s[..at]) && AllDomain(s[at + 1..dot]) && AllTld(s[dot + 1..])
        && IsWordChar(s[0]) && IsWordChar(s[|s| - 1]);
      assert ok ==> EmailSplit(s, at, dot);
      ok
    case _ => false
  }

  /** Any split the pattern admits is at the first `@` and the last `.`. */
  lemma SplitIsFirstAndLast(s: string, at: int, dot: int)
    requires EmailSplit(s, at, dot)
    ensures FirstIndex(s, '@') == Some(at)
    ensures LastIndex(s, '.') == Some(dot)
  {
    forall j | 0 <= j < at ensures s[j] != '@' {
      assert s[..at][j] == s[j];
    }
    forall j | dot < j < |s| ensures s[j] != '.' {
      assert s[dot + 1..][j - dot - 1] == s[j];
    }
    var f := FirstIndex(s, '@');
    var l := LastIndex(s, '.');
    assert f.Some? && l.Some?;
  }

  lemma PatternAtFirstAndLast(s: string)
    ensures EmailPattern(s) ==>
      FirstIndex(s, '@').Some? && LastIndex(s, '.').Some?
      && EmailSplit(s, FirstIndex(s, '@').value, LastIndex(s, '.').value)
  {
    if EmailPattern(s) {
      var at, dot :| EmailSplit(s, at, dot);
      SplitIsFirstAndLast(s, at, dot);
    }
  }

  /**
   * A valid address holds exactly one `@`, ends in a letter and has a `.`
   * after its `@`: no class of the pattern admits `@`, and the last admits
   * letters and `|` only.
   */
  lemma ValidEmailShape(s: string)
    requires ValidEmail(s)
    ensures exists at :: 0 < at < |s| && s[at] == '@' && forall j :: 0 <= j < |s| && j != at ==> s[j] != '@'
    ensures IsAsciiLetter(s[|s| - 1])
    ensures '.' in s
  {
    var at, dot :| EmailSplit(s, at, dot);
    forall j | 0 <= j < |s| && j != at ensures s[j] != '@' {
      if j < at {
        assert s[..at][j] == s[j];
      } else if j < dot {
        assert s[at + 1..dot][j - at - 1] == s[j];
      } else if j > dot {
        assert s[dot + 1..][j - dot - 1] == s[j];
      }
    }
    assert s[dot + 1..][|s| - dot - 2] == s[|s| - 1];
  }

  lemma Examples()
    ensures ValidEmail("ab@cd.org")
    ensures !ValidEmail("ab@cd.o")
    ensures !ValidEmail("ab.cd.org")
  {
    assert EmailSplit("ab@cd.org", 2, 5);
    var s := "ab@cd.o";
    assert LastIndex(s, '.') == Some(5);
    var t := "ab.cd.org";
    assert FirstIndex(t, '@') == None by {
      assert forall j :: 0 <= j < |t| ==> t[j] != '@';
    }
  }
}
