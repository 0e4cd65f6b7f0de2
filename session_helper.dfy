/**
 * Model of app/helpers/session_helper.py: `re.search` for the fixed pattern
 * `/sessions/(.*?)/contexts/`, returning the whole matched span (group 0)
 * or "" when nothing matches.
 *
 * Only this one pattern is modelled. The search tries every start position
 * from the left; at a start where "/sessions/" occurs, the lazy `.*?` tries
 * the shortest middle part first and grows it one character at a time, and
 * `.` does not match a newline, so the middle part can never cross one.
 */
module SessionHelper {
  import opened Wrappers

  const Sessions: string := "/sessions/"
  const Contexts: string := "/contexts/"

  /** `pat` occurs in `s` at position i. */
  predicate OccursAt(pat: string, s: string, i: int)
  {
    0 <= i && i + |pat| <= |s| && s[i..i + |pat|] == pat
  }

  /** "/sessions/" occurs at position i. */
  predicate SessionsAt(s: string, i: int)
  {
    OccursAt(Sessions, s, i)
  }

  /** "/contexts/" occurs at position j. */
  predicate ContextsAt(s: string, j: int)
  {
    OccursAt(Contexts, s, j)
  }

  /** No character of s[a..b] is a newline. */
  predicate NoNewline(s: string, a: int, b: int)
    requires 0 <= a <= b <= |s|
  {
    forall m :: a <= m < b ==> s[m] != '\n'
  }

  /**
   * The pattern matches s[i..j + 10]: "/sessions/" at i, "/contexts/" at j,
   * and the middle part s[i + 10..j] has no newline.
   */
  predicate MatchAt(s: string, i: int, j: int)
  {
    SessionsAt(s, i) && i + |Sessions| <= j && ContextsAt(s, j) && NoNewline(s, i + |Sessions|, j)
  }

  /** (i, j) is the match `re.search` reports: leftmost start, then shortest middle. */
  ghost predicate IsFirstMatch(s: string, i: int, j: int)
  {
    && MatchAt(s, i, j)
    && (forall i', j' :: i' < i ==> !MatchAt(s, i', j'))
    && (forall j' :: j' < j ==> !MatchAt(s, i, j'))
  }

  /**
   * The lazy middle part: scanning from k, the first "/contexts/" reached
   * before a newline.
   */
  function FindContexts(s: string, k: nat): (r: Option<nat>)
    requires k <= |s|
    ensures r.Some? ==> k <= r.value && ContextsAt(s, r.value) && NoNewline(s, k, r.value)
    ensures r.Some? ==> forall j :: k <= j < r.value ==> !ContextsAt(s, j)
    ensures r.None? ==> forall j :: k <= j && ContextsAt(s, j) ==> !NoNewline(s, k, j)
    decreases |s| - k
  {
    if k + |Contexts| > |s| then None
    else if s[k..k + |Contexts|] == Contexts then Some(k)
    else if s[k] == '\n' then None
    else FindContexts(s, k + 1)
  }

  /** The search: the first start position, from i on, where the pattern matches. */
  function FindMatch(s: string, i: nat): (r: Option<(nat, nat)>)
    requires i <= |s|
    ensures r.Some? ==> i <= r.value.0 && MatchAt(s, r.value.0, r.value.1)
    ensures r.Some? ==> forall i', j' :: i <= i' < r.value.0 ==> !MatchAt(s, i', j')
    ensures r.Some? ==> forall j' :: j' < r.value.1 ==> !MatchAt(s, r.value.0, j')
    ensures r.None? ==> forall i', j' :: i <= i' ==> !MatchAt(s, i', j')
    decreases |s| - i
  {
    if i + |Sessions| > |s| then None
    else if s[i..i + |Sessions|] == Sessions && FindContexts(s, i + |Sessions|).Some? then
      Some((i, FindContexts(s, i + |Sessions|).value))
    else FindMatch(s, i + 1)
  }

  /** extract_session_id: group 0 of the first match, or "". */
  function ExtractSessionId(sessionStr: string): (r: string)
    ensures |r| <= |sessionStr|
    ensures r == "" || |r| >= |Sessions| + |Contexts|
  {
    match FindMatch(sessionStr, 0)
    case None => ""
    case Some((i, j)) => sessionStr[i..j + |Contexts|]
  }

  /**
   * What extract_session_id returns: "" exactly when the pattern matches
   * nowhere; otherwise the span of the leftmost, shortest match.
   */
  lemma ExtractSessionIdMeaning(s: string)
    ensures ExtractSessionId(s) == "" <==> forall i, j :: !MatchAt(s, i, j)
    ensures ExtractSessionId(s) != "" ==>
      exists i, j :: IsFirstMatch(s, i, j) && ExtractSessionId(s) == s[i..j + |Contexts|]
  {
    match FindMatch(s, 0)
    case None =>
    case Some((i, j)) =>
      assert IsFirstMatch(s, i, j);
  }

  // ---------------------------------------------------------------------
  // Properties of the extracted span
  // ---------------------------------------------------------------------

  /** There is at most one first match. */
  lemma FirstMatchUnique(s: string, i1: int, j1: int, i2: int, j2: int)
    requires IsFirstMatch(s, i1, j1) && IsFirstMatch(s, i2, j2)
    ensures i1 == i2 && j1 == j2
  {
  }

  /** The result is determined by the first match. */
  lemma ExtractFirstMatch(s: string, i: int, j: int)
    requires IsFirstMatch(s, i, j)
    ensures ExtractSessionId(s) == s[i..j + |Contexts|]
  {
    var m := FindMatch(s, 0);
    assert m.Some?;
    FirstMatchUnique(s, i, j, m.value.0, m.value.1);
  }

  /** An occurrence inside the span s[a..b] is an occurrence in s, and back. */
  lemma OccursInSpan(pat: string, s: string, a: int, b: int, m: int)
    requires 0 <= a <= b <= |s| && 0 <= m && m + |pat| <= b - a
    ensures OccursAt(pat, s[a..b], m) <==> OccursAt(pat, s, a + m)
  {
    var inner, outer := s[a..b][m..m + |pat|], s[a + m..a + m + |pat|];
    forall k | 0 <= k < |pat| ensures inner[k] == outer[k] {
      assert s[a..b][m + k] == s[a + m + k];
    }
    assert inner == outer;
  }

  /** A pattern occurs where each of its characters does. */
  lemma OccursByChars(pat: string, s: string, i: int)
    requires 0 <= i && i + |pat| <= |s|
    requires forall k :: 0 <= k < |pat| ==> s[i + k] == pat[k]
    ensures OccursAt(pat, s, i)
  {
    assert s[i..i + |pat|] == pat;
  }

  /** A match inside the span s[i..j + 10] of a match is a match of s with the same start. */
  lemma MatchInSpan(s: string, i: int, j: int, m: int)
    requires MatchAt(s, i, j)
    requires MatchAt(s[i..j + |Contexts|], 0, m)
    ensures MatchAt(s, i, i + m)
  {
    var r := s[i..j + |Contexts|];
    OccursInSpan(Contexts, s, i, j + |Contexts|, m);
    forall k | i + |Sessions| <= k < i + m ensures s[k] != '\n' {
      assert s[k] == r[k - i];
    }
  }

  /** The characters of an occurrence are those of the pattern. */
  lemma OccursAtChar(pat: string, s: string, i: int, k: int)
    requires OccursAt(pat, s, i) && 0 <= k < |pat|
    ensures s[i + k] == pat[k]
  {
    assert s[i..i + |pat|][k] == s[i + k];
  }

  /**
   * A non-empty result starts with "/sessions/" and ends with "/contexts/".
   */
  lemma ExtractDelimiters(s: string)
    requires ExtractSessionId(s) != ""
    ensures var r := ExtractSessionId(s);
      && |r| >= |Sessions| + |Contexts|
      && OccursAt(Sessions, r, 0)
      && OccursAt(Contexts, r, |r| - |Contexts|)
  {
    var (i, j) := FindMatch(s, 0).value;
    SpanDelimiters(s, i, j, ExtractSessionId(s));
  }

  /** The span of a match starts with "/sessions/" and ends with "/contexts/". */
  lemma SpanDelimiters(s: string, i: int, j: int, r: string)
    requires MatchAt(s, i, j) && r == s[i..j + |Contexts|]
    ensures |r| >= |Sessions| + |Contexts| && OccursAt(Sessions, r, 0) && OccursAt(Contexts, r, |r| - |Contexts|)
  {
    SpanMatch(s, i, j);
  }

  /** The result is a contiguous substring of the input. */
  lemma ExtractSubstring(s: string)
    ensures exists i :: OccursAt(ExtractSessionId(s), s, i)
  {
    var r := ExtractSessionId(s);
    if r == "" {
      assert OccursAt(r, s, 0);
    } else {
      var (i, j) := FindMatch(s, 0).value;
      assert OccursAt(r, s, i);
    }
  }

  /** The middle part of a non-empty result has no newline. */
  lemma ExtractNoNewline(s: string)
    requires ExtractSessionId(s) != ""
    ensures var r := ExtractSessionId(s);
      |r| >= |Sessions| + |Contexts| && NoNewline(r, |Sessions|, |r| - |Contexts|)
  {
    var (i, j) := FindMatch(s, 0).value;
    SpanMatch(s, i, j);
  }

  /**
   * No "/contexts/" begins inside the middle part of a non-empty result:
   * the lazy `.*?` stopped at the first one.
   */
  lemma ExtractLazy(s: string)
    requires ExtractSessionId(s) != ""
    ensures var r := ExtractSessionId(s);
      forall m :: |Sessions| <= m < |r| - |Contexts| ==> !ContextsAt(r, m)
  {
    var (i, j) := FindMatch(s, 0).value;
    FirstMatchLazy(s, i, j, s[i..j + |Contexts|]);
  }

  /** No "/contexts/" begins inside the middle part of the first match. */
  lemma FirstMatchLazy(s: string, i: int, j: int, r: string)
    requires IsFirstMatch(s, i, j) && r == s[i..j + |Contexts|]
    ensures forall m :: |Sessions| <= m < j - i ==> !ContextsAt(r, m)
  {
    forall m | |Sessions| <= m < j - i ensures !ContextsAt(r, m) {
      OccursInSpan(Contexts, s, i, j + |Contexts|, m);
      assert !MatchAt(s, i, i + m);
    }
  }

  /** A match of s, cut out of s, is a match of the cut-out span. */
  lemma SpanMatch(s: string, i: int, j: int)
    requires MatchAt(s, i, j)
    ensures MatchAt(s[i..j + |Contexts|], 0, j - i)
  {
    var r := s[i..j + |Contexts|];
    OccursInSpan(Sessions, s, i, j + |Contexts|, 0);
    OccursInSpan(Contexts, s, i, j + |Contexts|, j - i);
    forall k | |Sessions| <= k < j - i ensures r[k] != '\n' {
      assert r[k] == s[i + k];
    }
  }

  /** The first match of s, cut out of s, is the first match of the cut-out span. */
  lemma SpanFirstMatch(s: string, i: int, j: int)
    requires IsFirstMatch(s, i, j)
    ensures IsFirstMatch(s[i..j + |Contexts|], 0, j - i)
  {
    var r := s[i..j + |Contexts|];
    SpanMatch(s, i, j);
    forall j' | j' < j - i ensures !MatchAt(r, 0, j') {
      if MatchAt(r, 0, j') {
        MatchInSpan(s, i, j, j');
      }
    }
  }

  /** Extracting again from an extracted span returns it unchanged. */
  lemma ExtractIdempotent(s: string)
    ensures ExtractSessionId(ExtractSessionId(s)) == ExtractSessionId(s)
  {
    var r := ExtractSessionId(s);
    if r != "" {
      var (i, j) := FindMatch(s, 0).value;
      SpanFirstMatch(s, i, j);
      ExtractFirstMatch(r, 0, j - i);
      assert r[0..j - i + |Contexts|] == r;
    }
  }

  // ---------------------------------------------------------------------
  // Worked examples
  // ---------------------------------------------------------------------

  /** An empty session id: the whole input is the match. */
  lemma ExtractEmptyMiddle()
    ensures ExtractSessionId("/sessions//contexts/") == "/sessions//contexts/"
  {
    var s := "/sessions//contexts/";
    assert s[..|Sessions|] == Sessions;
    assert s[|Sessions|..|Sessions| + |Contexts|] == Contexts;
  }

  const ExampleSession: string := "https://x/sessions/abc123/contexts/y"

  lemma ExampleSessionsAt()
    ensures forall i :: SessionsAt(ExampleSession, i) ==> i == 9
  {
    var s := ExampleSession;
    forall i | SessionsAt(s, i) ensures i == 9 {
      OccursAtChar(Sessions, s, i, 0);
      OccursAtChar(Sessions, s, i, 1);
    }
  }

  lemma ExampleContextsAt()
    ensures forall j :: ContextsAt(ExampleSession, j) ==> j == 25
  {
    var s := ExampleSession;
    forall j | ContextsAt(s, j) ensures j == 25 {
      OccursAtChar(Contexts, s, j, 0);
      OccursAtChar(Contexts, s, j, 1);
    }
  }

  lemma ExampleMatch()
    ensures MatchAt(ExampleSession, 9, 25)
  {
    var s := ExampleSession;
    OccursByChars(Sessions, s, 9);
    OccursByChars(Contexts, s, 25);
  }

  lemma ExampleSpan()
    ensures ExampleSession[9..35] == "/sessions/abc123/contexts/"
  {
    OccursByChars("/sessions/abc123/contexts/", ExampleSession, 9);
  }

  /** The text before "/sessions/" and after "/contexts/" is not returned. */
  lemma ExtractDropsPrefix()
    ensures ExtractSessionId(ExampleSession) == "/sessions/abc123/contexts/"
  {
    var s := ExampleSession;
    ExampleSessionsAt();
    ExampleContextsAt();
    ExampleMatch();
    assert IsFirstMatch(s, 9, 25);
    ExtractFirstMatch(s, 9, 25);
    ExampleSpan();
  }

  /** Without "/sessions/" and a later "/contexts/" on one line, nothing is extracted. */
  lemma ExtractNoMatch()
    ensures ExtractSessionId("no-match") == ""
    ensures ExtractSessionId("/sessions/a\nb/contexts/") == ""
  {
    var t := "/sessions/a\nb/contexts/";
    forall i | SessionsAt(t, i) ensures i == 0 {
      OccursAtChar(Sessions, t, i, 0);
      OccursAtChar(Sessions, t, i, 1);
    }
    forall j | ContextsAt(t, j) ensures j == 13 {
      OccursAtChar(Contexts, t, j, 0);
      OccursAtChar(Contexts, t, j, 1);
    }
    assert t[11] == '\n';
  }
}
