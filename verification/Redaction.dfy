/**
  Log redaction: the URL-credential pass and the bearer pass as leftmost, non-overlapping
  substitutions, and their composition as a closure onto the clean strings.
 */
module Redaction {

  import opened Options

  /** A match at the start of a string: group 1 ends at `group`, the whole match at `end`. */
  datatype Match = Match(group: nat, end: nat)

  const MARK := "<redacted>"

  // ---------------------------------------------------------------- character classes

  /** `\s` in a Unicode pattern. */
  predicate Space(c: char) {
    var n := c as int;
    9 <= n <= 13 || 28 <= n <= 32 || n == 0x85 || n == 0xA0 || n == 0x1680 || 0x2000 <= n <= 0x200A ||
    n == 0x2028 || n == 0x2029 || n == 0x202F || n == 0x205F || n == 0x3000
  }

  predicate Alpha(c: char) { 'a' <= c <= 'z' || 'A' <= c <= 'Z' }

  predicate Digit(c: char) { '0' <= c <= '9' }

  predicate SchemeChar(c: char) { Alpha(c) || Digit(c) || c == '+' || c == '.' || c == '-' }

  predicate CredentialChar(c: char) { c != '/' && c != '@' && !Space(c) }

  /** `[A-Za-z0-9._~+\-/]` under `(?i)`, where four non-ASCII letters fold into the ranges. */
  predicate TokenChar(c: char) {
    Alpha(c) || Digit(c) || c == '.' || c == '_' || c == '~' || c == '+' || c == '-' || c == '/' ||
    c as int == 0x130 || c as int == 0x131 || c as int == 0x17F || c as int == 0x212A
  }

  predicate Equals(c: char) { c == '=' }

  function Fold(c: char): char {
    if 'A' <= c <= 'Z' then (c as int + 32) as char else c
  }

  /** The longest run of p at the start of s: what a greedy `p*` takes. */
  function Span(s: string, p: char -> bool): (n: nat)
    ensures n <= |s| && (forall i :: 0 <= i < n ==> p(s[i])) && (n < |s| ==> !p(s[n]))
  {
    if s == "" || !p(s[0]) then 0 else 1 + Span(s[1..], p)
  }

  // ---------------------------------------------------------------- substitution

  /** A matcher: what the pattern takes at the start of a string. */
  type Finder = string -> Option<Match>

  /** Matches are non-empty and lie in the string. */
  ghost predicate Sound(find: Finder) {
    forall s :: find(s).Some? ==> find(s).value.group <= find(s).value.end <= |s| && 0 < find(s).value.end
  }

  /** `re.sub(pattern, r"\1" + mark, s)`: leftmost, non-overlapping; group 1 stays, the rest of
      each match becomes the mark. */
  function Substitute(find: Finder, mark: string, s: string): string
    requires Sound(find)
    decreases |s|
  {
    if s == "" then "" else
      match find(s)
      case None => [s[0]] + Substitute(find, mark, s[1..])
      case Some(m) => s[..m.group] + mark + Substitute(find, mark, s[m.end..])
  }

  /** No match starts in the first n characters. */
  predicate NoMatchIn(find: Finder, s: string, n: nat) {
    n == 0 || (s != "" && find(s).None? && NoMatchIn(find, s[1..], n - 1))
  }

  lemma SubstituteStep(find: Finder, mark: string, s: string)
    requires Sound(find) && s != ""
    ensures find(s).None? ==> Substitute(find, mark, s) == [s[0]] + Substitute(find, mark, s[1..])
    ensures find(s).Some? ==>
              var m := find(s).value;
              Substitute(find, mark, s) == s[..m.group] + mark + Substitute(find, mark, s[m.end..])
  {}

  lemma {:induction false} CopiesUnmatched(find: Finder, mark: string, s: string, n: nat)
    requires Sound(find) && n <= |s| && NoMatchIn(find, s, n)
    ensures Substitute(find, mark, s) == s[..n] + Substitute(find, mark, s[n..])
  {
    if n == 0 {
      assert s[0..] == s;
    } else {
      CopiesUnmatched(find, mark, s[1..], n - 1);
      SubstituteStep(find, mark, s);
      Regroup(s, n, Substitute(find, mark, s[n..]));
      assert s[1..][n - 1..] == s[n..];
    }
  }

  lemma Regroup(s: string, n: nat, t: string)
    requires 1 <= n <= |s|
    ensures [s[0]] + (s[1..][..n - 1] + t) == s[..n] + t
  {
    assert s[..n] == [s[0]] + s[1..][..n - 1];
  }

  /** Up to the first match nothing changes, of the match only the part behind group 1 is
      replaced, and the pass goes on behind it. */
  lemma LeftmostMatch(find: Finder, mark: string, s: string, n: nat)
    requires Sound(find) && n < |s| && NoMatchIn(find, s, n) && find(s[n..]).Some?
    ensures var m := find(s[n..]).value;
            Substitute(find, mark, s) ==
            s[..n] + (s[n..][..m.group] + mark + Substitute(find, mark, s[n..][m.end..]))
  {
    CopiesUnmatched(find, mark, s, n);
    SubstituteStep(find, mark, s[n..]);
  }

  /** s and r agree up to `at`, where r has the mark. */
  ghost predicate AgreeUpTo(s: string, r: string, at: nat, mark: string) {
    at + |mark| <= |r| && at <= |s| && r[..at] == s[..at] && r[at..at + |mark|] == mark
  }

  /** A pass that changes anything first puts its mark behind group 1 of a match. */
  lemma {:induction false} FirstMark(find: Finder, mark: string, s: string) returns (i: nat, at: nat)
    requires Sound(find)
    ensures Substitute(find, mark, s) == s || MarkedAt(find, mark, s, i, at)
    decreases |s|
  {
    i, at := 0, 0;
    if s != "" {
      match find(s)
      case None =>
        i, at := FirstMark(find, mark, s[1..]);
        if Substitute(find, mark, s[1..]) == s[1..] {
          UnchangedBehind(find, mark, s);
        } else {
          MarkedBehind(find, mark, s, i, at);
          i, at := i + 1, at + 1;
        }
      case Some(m) =>
        at := m.group;
        MarkedHere(find, mark, s);
    }
  }

  /** The mark sits behind group 1 of a match at i, and before it nothing changes. */
  ghost predicate MarkedAt(find: Finder, mark: string, s: string, i: nat, at: nat)
    requires Sound(find)
  {
    i <= |s| && find(s[i..]).Some? && at == i + find(s[i..]).value.group &&
    AgreeUpTo(s, Substitute(find, mark, s), at, mark)
  }

  lemma BeforeMark(find: Finder, mark: string, s: string, i: nat, at: nat)
    requires Sound(find) && MarkedAt(find, mark, s, i, at) && find(s[i..]).value.group > 0
    ensures at <= |s| && at <= |Substitute(find, mark, s)|
    ensures Substitute(find, mark, s)[at - 1] == s[i..][find(s[i..]).value.group - 1]
  {
    var r := Substitute(find, mark, s);
    assert r[..at][at - 1] == s[..at][at - 1];
  }

  lemma UnchangedBehind(find: Finder, mark: string, s: string)
    requires Sound(find) && s != "" && find(s).None? && Substitute(find, mark, s[1..]) == s[1..]
    ensures Substitute(find, mark, s) == s
  {
    SubstituteStep(find, mark, s);
    assert [s[0]] + s[1..] == s;
  }

  lemma MarkedBehind(find: Finder, mark: string, s: string, i: nat, at: nat)
    requires Sound(find) && s != "" && find(s).None? && MarkedAt(find, mark, s[1..], i, at)
    ensures MarkedAt(find, mark, s, i + 1, at + 1)
  {
    SubstituteStep(find, mark, s);
    assert s[1..][i..] == s[i + 1..];
    AgreeBehind(s[0], s[1..], Substitute(find, mark, s[1..]), at, mark);
    assert [s[0]] + s[1..] == s;
  }

  lemma MarkedHere(find: Finder, mark: string, s: string)
    requires Sound(find) && s != "" && find(s).Some?
    ensures MarkedAt(find, mark, s, 0, find(s).value.group)
  {
    var m := find(s).value;
    SubstituteStep(find, mark, s);
    assert s[0..] == s;
    MatchAgrees(s, m.group, mark, Substitute(find, mark, s[m.end..]));
  }

  lemma AgreeBehind(c: char, s: string, r: string, at: nat, mark: string)
    requires AgreeUpTo(s, r, at, mark)
    ensures AgreeUpTo([c] + s, [c] + r, at + 1, mark)
  {
    assert ([c] + r)[..at + 1] == [c] + r[..at];
    assert ([c] + s)[..at + 1] == [c] + s[..at];
    assert ([c] + r)[at + 1..at + 1 + |mark|] == r[at..at + |mark|];
  }

  lemma MatchAgrees(s: string, g: nat, mark: string, t: string)
    requires g <= |s|
    ensures AgreeUpTo(s, s[..g] + mark + t, g, mark)
  {
    assert (s[..g] + mark + t)[g..g + |mark|] == mark;
  }

  // ---------------------------------------------------------------- the URL-credential pass

  /** `([a-zA-Z][a-zA-Z0-9+.-]*://)([^/@\s]+)@` at the start of s. */
  function UrlMatch(s: string): Option<Match> {
    if s == "" || !Alpha(s[0]) then None else
      var k := Span(s, SchemeChar);
      if |s| < k + 3 || s[k..k + 3] != "://" then None else
        var n := Span(s[k + 3..], CredentialChar);
        if n == 0 || k + 3 + n == |s| || s[k + 3 + n] != '@' then None
        else Some(Match(k + 3, k + 3 + n + 1))
  }

  /** The language of the pattern, with group 1 ending at g and the match at e. */
  ghost predicate UrlSyntax(s: string, g: nat, e: nat) {
    && 4 <= g < e - 1 < |s|
    && Alpha(s[0]) && (forall i :: 0 <= i < g - 3 ==> SchemeChar(s[i]))
    && s[g - 3..g] == "://"
    && (forall i :: g <= i < e - 1 ==> CredentialChar(s[i]))
    && s[e - 1] == '@'
  }

  /** The first pass of `_sanitize_text`. */
  function RedactUrls(s: string): string {
    FindersAreSound();
    Substitute(UrlMatch, MARK + "@", s)
  }

  lemma UrlMatchBounds(s: string)
    ensures UrlMatch(s).Some? ==>
              var m := UrlMatch(s).value;
              4 <= m.group < m.end - 1 < |s| && s[m.group - 1] == '/' && s[m.end - 1] == '@' &&
              s[m.group - 3..m.group] == "://"
  {}

  /** The pattern matches in one way only, so greed and backtracking order are immaterial. */
  lemma UrlMatchIsSyntax(s: string, g: nat, e: nat)
    ensures UrlMatch(s) == Some(Match(g, e)) <==> UrlSyntax(s, g, e)
  {
    if UrlSyntax(s, g, e) {
      var k := Span(s, SchemeChar);
      assert s[g - 3] == s[g - 3..g][0] == ':';
      assert k == g - 3;
      var n := Span(s[g..], CredentialChar);
      assert s[g..][e - 1 - g] == '@';
      assert forall i :: 0 <= i < |s| - g ==> s[g..][i] == s[g + i];
    }
    if UrlMatch(s) == Some(Match(g, e)) {
      UrlMatchBounds(s);
      forall i | g <= i < e - 1 ensures CredentialChar(s[i]) {
        assert s[i] == s[g..][i - g];
      }
    }
  }

  /** The credential of a match at the start of s, if there is one, is the marker. */
  predicate HeadRedacted(s: string) {
    UrlMatchBounds(s);
    UrlMatch(s).Some? ==> s[UrlMatch(s).value.group..UrlMatch(s).value.end] == MARK + "@"
  }

  /** Wherever the URL pattern matches, what it captures is the marker. */
  predicate UrlClean(s: string) {
    s == "" || (HeadRedacted(s) && UrlClean(s[1..]))
  }

  lemma {:induction false} UrlCleanSuffix(s: string, i: nat)
    requires UrlClean(s) && i <= |s|
    ensures UrlClean(s[i..])
  {
    if i > 0 {
      UrlCleanSuffix(s[1..], i - 1);
      assert s[1..][i - 1..] == s[i..];
    } else {
      assert s[0..] == s;
    }
  }

  /** A piece without ':' that ends outside a scheme cannot begin a match into what follows. */
  lemma {:induction false} UrlCleanAcross(w: string, t: string)
    requires UrlClean(t) && ':' !in w && (w != "" ==> !SchemeChar(w[|w| - 1]))
    ensures UrlClean(w + t)
  {
    if w == "" {
      assert w + t == t;
    } else {
      UrlCleanAcross(w[1..], t);
      assert (w + t)[1..] == w[1..] + t;
      var k := Span(w + t, SchemeChar);
      assert k < |w| by { assert (w + t)[|w| - 1] == w[|w| - 1]; }
      assert (w + t)[k] == w[k] && w[k] in w;
      if k + 3 <= |w + t| { assert (w + t)[k..k + 3][0] == w[k]; }
    }
  }

  /** A marked credential is a word of the pattern. */
  lemma MarkedUrlSyntax(p: string, t: string)
    requires p != "" && Alpha(p[0]) && forall i :: 0 <= i < |p| ==> SchemeChar(p[i])
    ensures var s := p + "://" + MARK + "@" + t;
            UrlSyntax(s, |p| + 3, |p| + 14) && s[|p| + 3..|p| + 14] == MARK + "@"
  {
    var s := p + "://" + MARK + "@" + t;
    assert s[|p|..|p| + 3] == "://" && s[|p| + 3..|p| + 14] == MARK + "@";
    forall i | |p| + 3 <= i < |p| + 13 ensures CredentialChar(s[i]) {
      assert s[i] == MARK[i - |p| - 3];
    }
    assert s[|p| + 13] == s[|p| + 3..|p| + 14][10];
  }

  lemma MarkedTail(p: string, t: string)
    requires p != ""
    ensures (p + "://" + MARK + "@" + t)[0] == p[0]
    ensures (p + "://" + MARK + "@" + t)[1..] == p[1..] + "://" + MARK + "@" + t
  {}

  lemma {:induction false} UrlCleanScheme(p: string, t: string)
    requires UrlClean(t) && forall i :: 0 <= i < |p| ==> SchemeChar(p[i])
    ensures UrlClean(p + "://" + MARK + "@" + t)
  {
    var s := p + "://" + MARK + "@" + t;
    if p == "" {
      var w := "//" + MARK + "@";
      UrlCleanAcross(w, t);
      assert s == [':'] + (w + t);
    } else {
      UrlCleanScheme(p[1..], t);
      MarkedTail(p, t);
      if Alpha(s[0]) {
        MarkedUrlSyntax(p, t);
        UrlMatchIsSyntax(s, |p| + 3, |p| + 14);
      }
    }
  }

  lemma UrlBeforeMark(s: string, i: nat, at: nat)
    requires Sound(UrlMatch) && MarkedAt(UrlMatch, MARK + "@", s, i, at)
    ensures 1 <= at <= |Substitute(UrlMatch, MARK + "@", s)|
    ensures Substitute(UrlMatch, MARK + "@", s)[at - 1] == '/'
  {
    UrlMatchBounds(s[i..]);
    BeforeMark(UrlMatch, MARK + "@", s, i, at);
  }

  /** The first marker put in by the URL pass sits right behind "://". */
  lemma UrlsAgree(s: string) returns (at: nat)
    ensures RedactUrls(s) == s ||
            (AgreeUpTo(s, RedactUrls(s), at, MARK + "@") && at >= 1 && RedactUrls(s)[at - 1] == '/')
  {
    FindersAreSound();
    var i;
    i, at := FirstMark(UrlMatch, MARK + "@", s);
    if RedactUrls(s) != s { UrlBeforeMark(s, i, at); }
  }

  lemma UrlStep(s: string)
    requires s != ""
    ensures UrlMatch(s).None? ==> RedactUrls(s) == [s[0]] + RedactUrls(s[1..])
    ensures UrlMatch(s).Some? ==>
              var m := UrlMatch(s).value;
              m.group <= m.end <= |s| && RedactUrls(s) == s[..m.group] + (MARK + "@") + RedactUrls(s[m.end..])
  {
    FindersAreSound();
  }

  /** A match does not depend on what follows it. */
  lemma UrlMatchLocal(s: string, t: string)
    requires UrlMatch(s).Some? && UrlMatch(s).value.end <= |t|
    requires s[..UrlMatch(s).value.end] == t[..UrlMatch(s).value.end]
    ensures UrlMatch(t) == UrlMatch(s)
  {
    var m := UrlMatch(s).value;
    UrlMatchIsSyntax(s, m.group, m.end);
    forall i | 0 <= i < m.end ensures s[i] == t[i] {
      assert s[i] == s[..m.end][i] && t[i] == t[..m.end][i];
    }
    assert t[m.group - 3..m.group] == s[m.group - 3..m.group];
    UrlMatchIsSyntax(t, m.group, m.end);
  }

  lemma UnmatchedHeadStaysClean(s: string, r: string, at: nat)
    requires UrlMatch(s).None? && AgreeUpTo(s, r, at, MARK + "@") && at >= 1 && r[at - 1] == '/'
    ensures HeadRedacted(r)
  {
    if UrlMatch(r).Some? {
      var m := UrlMatch(r).value;
      UrlMatchIsSyntax(r, m.group, m.end);
      if m.end <= at {
        assert r[..m.end] == r[..at][..m.end] && s[..m.end] == s[..at][..m.end];
        UrlMatchLocal(r, s);
      } else {
        MarkIsWholeCredential(r, m, at);
      }
    }
  }

  lemma MarkedScheme(p: string, t: string)
    ensures (p + "://") + (MARK + "@") + t == p + "://" + MARK + "@" + t
  {}

  lemma SchemeOf(s: string)
    requires UrlMatch(s).Some?
    ensures var g := UrlMatch(s).value.group;
            4 <= g <= |s| && s[..g] == s[..g - 3] + "://" && forall i :: 0 <= i < g - 3 ==> SchemeChar(s[i])
  {
    UrlMatchBounds(s);
    var g := UrlMatch(s).value.group;
    assert s[..g] == s[..g - 3] + s[g - 3..g];
  }

  lemma MatchedHeadComesOutClean(s: string, t: string)
    requires UrlMatch(s).Some? && UrlClean(t)
    ensures UrlClean(s[..UrlMatch(s).value.group] + (MARK + "@") + t)
  {
    var g := UrlMatch(s).value.group;
    SchemeOf(s);
    UrlCleanScheme(s[..g - 3], t);
    MarkedScheme(s[..g - 3], t);
  }

  /** After the first pass every URL credential in the text is the marker. */
  lemma {:induction false} UrlsAreRedacted(s: string)
    ensures UrlClean(RedactUrls(s))
    decreases |s|
  {
    if s == "" {
      FindersAreSound();
    } else {
      UrlStep(s);
      match UrlMatch(s)
      case None =>
        UrlsAreRedacted(s[1..]);
        var at := UrlsAgree(s);
        if RedactUrls(s) != s { UnmatchedHeadStaysClean(s, RedactUrls(s), at); }
        assert RedactUrls(s)[1..] == RedactUrls(s[1..]);
      case Some(m) =>
        UrlMatchBounds(s);
        UrlsAreRedacted(s[m.end..]);
        MatchedHeadComesOutClean(s, RedactUrls(s[m.end..]));
    }
  }

  lemma MarkIsWholeCredential(r: string, m: Match, at: nat)
    requires UrlSyntax(r, m.group, m.end) && 1 <= at < m.end && at + 11 <= |r|
    requires r[at - 1] == '/' && r[at..at + 11] == MARK + "@"
    ensures r[m.group..m.end] == MARK + "@"
  {
    assert r[at] == '<' by { assert r[at] == r[at..at + 11][0]; }
    assert forall i :: m.group - 3 <= i < m.group ==> r[i] == r[m.group - 3..m.group][i - (m.group - 3)];
    assert at >= m.group;
    assert at == m.group;
    assert r[at + 10] == r[at..at + 11][10] == '@';
    forall i | at <= i < at + 10 ensures r[i] != '@' {
      assert r[i] == r[at..at + 11][i - at] == MARK[i - at];
    }
    assert m.end == at + 11;
  }

  lemma {:induction false} CleanUrlsStay(s: string)
    requires UrlClean(s)
    ensures RedactUrls(s) == s
    decreases |s|
  {
    if s == "" {
      FindersAreSound();
    } else {
      UrlStep(s);
      match UrlMatch(s)
      case None => CleanUrlsStay(s[1..]);
      case Some(m) =>
        UrlMatchBounds(s);
        UrlCleanSuffix(s, m.end);
        CleanUrlsStay(s[m.end..]);
        ThreeParts(s, m.group, m.end);
    }
  }

  lemma ThreeParts(s: string, i: nat, j: nat)
    requires i <= j <= |s|
    ensures s == s[..i] + s[i..j] + s[j..]
  {}

  // ---------------------------------------------------------------- the bearer pass

  /** `(?i)(bearer\s+)[A-Za-z0-9._~+\-/]+=*` at the start of s, each repetition greedy. */
  function BearerMatch(s: string): Option<Match> {
    if |s| < 6 || !IsBearer(s[..6]) then None else
      var w := Span(s[6..], Space);
      if w == 0 then None else
        var t := Span(s[6 + w..], TokenChar);
        if t == 0 then None else
          Some(Match(6 + w, 6 + w + t + Span(s[6 + w + t..], Equals)))
  }

  predicate IsBearer(s: string)
    requires |s| == 6
  {
    Fold(s[0]) == 'b' && Fold(s[1]) == 'e' && Fold(s[2]) == 'a' && Fold(s[3]) == 'r' && Fold(s[4]) == 'e' &&
    Fold(s[5]) == 'r'
  }

  /** The language of the pattern: the token ends at t, the padding at e. */
  ghost predicate BearerSyntax(s: string, g: nat, t: nat, e: nat) {
    && 6 < g < t <= e <= |s|
    && IsBearer(s[..6]) && (forall i :: 6 <= i < g ==> Space(s[i]))
    && (forall i :: g <= i < t ==> TokenChar(s[i]))
    && (forall i :: t <= i < e ==> Equals(s[i]))
  }

  /** The second pass of `_sanitize_text`. */
  function RedactBearers(s: string): string {
    FindersAreSound();
    Substitute(BearerMatch, MARK, s)
  }

  lemma FindersAreSound()
    ensures Sound(UrlMatch) && Sound(BearerMatch)
  {
    forall s | UrlMatch(s).Some? ensures UrlMatch(s).value.group <= UrlMatch(s).value.end <= |s| {
      UrlMatchBounds(s);
    }
  }

  /** The match found is a word of the language, and no longer word starts here. */
  lemma BearerMatchIsLongest(s: string)
    ensures BearerMatch(s).Some? ==>
              exists t :: BearerSyntax(s, BearerMatch(s).value.group, t, BearerMatch(s).value.end)
    ensures forall g: nat, t: nat, e: nat :: BearerSyntax(s, g, t, e) ==>
              BearerMatch(s).Some? && g == BearerMatch(s).value.group && e <= BearerMatch(s).value.end
  {
    if BearerMatch(s).Some? { var _ := BearerMatchIsWord(s); }
    forall g: nat, t: nat, e: nat | BearerSyntax(s, g, t, e)
      ensures BearerMatch(s).Some? && g == BearerMatch(s).value.group && e <= BearerMatch(s).value.end
    {
      BearerWordMatches(s, g, t, e);
    }
  }

  lemma BearerMatchIsWord(s: string) returns (t: nat)
    requires BearerMatch(s).Some?
    ensures BearerSyntax(s, BearerMatch(s).value.group, t, BearerMatch(s).value.end)
  {
    var m := BearerMatch(s).value;
    t := m.group + Span(s[m.group..], TokenChar);
    forall i | m.group <= i < t ensures TokenChar(s[i]) { assert s[i] == s[m.group..][i - m.group]; }
    forall i | t <= i < m.end ensures Equals(s[i]) { assert s[i] == s[t..][i - t]; }
    forall i | 6 <= i < m.group ensures Space(s[i]) { assert s[i] == s[6..][i - 6]; }
  }

  lemma BearerWordMatches(s: string, g: nat, t: nat, e: nat)
    requires BearerSyntax(s, g, t, e)
    ensures BearerMatch(s).Some? && g == BearerMatch(s).value.group && e <= BearerMatch(s).value.end
  {
    SpanIs(s, 6, g, Space);
    var u := g + Span(s[g..], TokenChar);
    SpanAtLeast(s, g, t, TokenChar);
    if u == t {
      SpanAtLeast(s, t, e, Equals);
    } else {
      assert TokenChar(s[t]) by { assert s[g..][t - g] == s[t]; }
    }
  }

  lemma SpanAtLeast(s: string, i: nat, j: nat, p: char -> bool)
    requires i <= j <= |s| && forall m :: i <= m < j ==> p(s[m])
    ensures Span(s[i..], p) >= j - i
  {
    assert forall m :: 0 <= m < |s| - i ==> s[i..][m] == s[i + m];
  }

  lemma SpanIs(s: string, i: nat, j: nat, p: char -> bool)
    requires i <= j < |s| && (forall m :: i <= m < j ==> p(s[m])) && !p(s[j])
    ensures Span(s[i..], p) == j - i
  {
    assert forall m :: 0 <= m < |s| - i ==> s[i..][m] == s[i + m];
  }

  /** The bearer pattern matches nowhere. */
  predicate BearerClean(s: string) {
    s == "" || (BearerMatch(s).None? && BearerClean(s[1..]))
  }

  /** A piece without the letter b cannot begin a match into what follows. */
  lemma {:induction false} BearerCleanAcross(w: string, t: string)
    requires BearerClean(t) && forall c :: c in w ==> Fold(c) != 'b'
    ensures BearerClean(w + t)
  {
    if w == "" {
      assert w + t == t;
    } else {
      BearerCleanAcross(w[1..], t);
      assert (w + t)[1..] == w[1..] + t;
      if |w + t| >= 6 { assert (w + t)[..6][0] == w[0]; }
    }
  }

  lemma BearerGroupEnds(s: string)
    requires BearerMatch(s).Some?
    ensures 7 <= BearerMatch(s).value.group <= |s| && Space(s[BearerMatch(s).value.group - 1])
  {
    var g := BearerMatch(s).value.group;
    assert s[6..][g - 7] == s[g - 1];
  }

  /** The first marker put in by the bearer pass stands behind white space. */
  lemma BearersAgree(s: string) returns (at: nat)
    ensures RedactBearers(s) == s ||
            (AgreeUpTo(s, RedactBearers(s), at, MARK) && at >= 1 && Space(RedactBearers(s)[at - 1]))
  {
    FindersAreSound();
    var i;
    i, at := FirstMark(BearerMatch, MARK, s);
    if RedactBearers(s) != s {
      BearerGroupEnds(s[i..]);
      BeforeMark(BearerMatch, MARK, s, i, at);
    }
  }

  lemma BearerStep(s: string)
    requires s != ""
    ensures BearerMatch(s).None? ==> RedactBearers(s) == [s[0]] + RedactBearers(s[1..])
    ensures BearerMatch(s).Some? ==>
              var m := BearerMatch(s).value;
              m.group <= m.end <= |s| && RedactBearers(s) == s[..m.group] + MARK + RedactBearers(s[m.end..])
  {
    FindersAreSound();
  }

  /** A match cannot run into a marker, so it was there before the marker was. */
  lemma BearerMatchWasThere(s: string, r: string, at: nat)
    requires BearerMatch(r).Some? && AgreeUpTo(s, r, at, MARK)
    ensures BearerMatch(s).Some?
  {
    var g := BearerMatch(r).value.group;
    var t := BearerMatchIsWord(r);
    assert forall i :: 0 <= i < 6 ==> r[i] == r[..6][i];
    assert r[at] == r[at..at + 10][0] == '<';
    assert at > g;
    assert forall i :: 0 <= i < at ==> r[i] == r[..at][i] && s[i] == s[..at][i];
    assert s[..6] == r[..6];
    BearerWordMatches(s, g, g + 1, g + 1);
  }

  /** After the second pass no bearer token is left anywhere in the text. */
  lemma {:induction false} BearersAreRedacted(s: string)
    ensures BearerClean(RedactBearers(s))
    decreases |s|
  {
    if s == "" {
      FindersAreSound();
    } else {
      BearerStep(s);
      match BearerMatch(s)
      case None =>
        BearersAreRedacted(s[1..]);
        var at := BearersAgree(s);
        if BearerMatch(RedactBearers(s)).Some? { BearerMatchWasThere(s, RedactBearers(s), at); }
        assert RedactBearers(s)[1..] == RedactBearers(s[1..]);
      case Some(m) =>
        BearersAreRedacted(s[m.end..]);
        MatchedBearerComesOutClean(s, RedactBearers(s[m.end..]));
    }
  }

  lemma BearerPrefix(s: string)
    requires BearerMatch(s).Some?
    ensures var g := BearerMatch(s).value.group;
      && 6 < g <= |s| && IsBearer(s[..6])
      && (forall i :: 6 <= i < g ==> Space(s[i]))
      && (forall i :: 1 <= i < g ==> Fold(s[i]) != 'b')
      && (forall i :: 0 <= i < g ==> s[i] != ':')
  {
    var g := BearerMatch(s).value.group;
    assert forall i :: 6 <= i < g ==> s[i] == s[6..][i - 6];
    assert forall i :: 0 <= i < 6 ==> s[i] == s[..6][i];
  }

  /** Behind the white space of a rewritten match stands '<', which starts no token. */
  lemma MarkedBearerIsNone(s: string, g: nat, t: string)
    requires 6 < g <= |s| && forall i :: 6 <= i < g ==> Space(s[i])
    ensures BearerMatch(s[..g] + MARK + t).None?
  {
    var r := s[..g] + MARK + t;
    assert forall i :: 0 <= i < g ==> r[i] == s[i];
    assert r[g] == MARK[0] == '<';
    SpanIs(r, 6, g, Space);
  }

  lemma MatchedBearerComesOutClean(s: string, t: string)
    requires BearerMatch(s).Some? && BearerClean(t)
    ensures BearerClean(s[..BearerMatch(s).value.group] + MARK + t)
  {
    var g := BearerMatch(s).value.group;
    BearerPrefix(s);
    MarkedBearerIsNone(s, g, t);
    MarkHasNoB(s[1..g], t);
    TailOfMarked(s, g, t);
  }

  lemma TailOfMarked(s: string, g: nat, t: string)
    requires 1 <= g <= |s|
    ensures (s[..g] + MARK + t)[1..] == s[1..g] + MARK + t
  {}

  lemma MarkHasNoB(w: string, t: string)
    requires BearerClean(t) && forall c :: c in w ==> Fold(c) != 'b'
    ensures BearerClean(w + MARK + t)
  {
    BearerCleanAcross(w + MARK, t);
  }

  lemma {:induction false} CleanBearersStay(s: string)
    requires BearerClean(s)
    ensures RedactBearers(s) == s
    decreases |s|
  {
    if s == "" {
      FindersAreSound();
    } else {
      BearerStep(s);
      CleanBearersStay(s[1..]);
    }
  }

  // ---------------------------------------------------------------- the composition

  /** `_sanitize_text`. */
  function SanitizeText(s: string): string {
    RedactBearers(RedactUrls(s))
  }

  /** Nothing left to redact: no bearer token, and no URL credential but the marker. */
  predicate Clean(s: string) {
    UrlClean(s) && BearerClean(s)
  }

  /** A marker put in place of a token stands after white space, so no URL can run through it. */
  lemma BearerHeadKeepsUrlHead(s: string, r: string, at: nat)
    requires HeadRedacted(s) && AgreeUpTo(s, r, at, MARK) && at >= 1 && Space(r[at - 1])
    ensures HeadRedacted(r)
  {
    if UrlMatch(r).Some? {
      var m := UrlMatch(r).value;
      UrlMatchIsSyntax(r, m.group, m.end);
      assert forall i :: m.group - 3 <= i < m.group ==> r[i] == r[m.group - 3..m.group][i - (m.group - 3)];
      assert r[at] == r[at..at + 10][0] == '<';
      assert m.end <= at;
      assert r[..m.end] == r[..at][..m.end] && s[..m.end] == s[..at][..m.end];
      UrlMatchLocal(r, s);
      assert r[m.group..m.end] == r[..m.end][m.group..] && s[m.group..m.end] == s[..m.end][m.group..];
    }
  }

  /** The bearer pass never uncovers a URL credential. */
  lemma {:induction false} BearersKeepUrlsClean(s: string)
    requires UrlClean(s)
    ensures UrlClean(RedactBearers(s))
    decreases |s|
  {
    if s == "" {
      FindersAreSound();
    } else {
      BearerStep(s);
      match BearerMatch(s)
      case None =>
        BearersKeepUrlsClean(s[1..]);
        var at := BearersAgree(s);
        if RedactBearers(s) != s { BearerHeadKeepsUrlHead(s, RedactBearers(s), at); }
        assert RedactBearers(s)[1..] == RedactBearers(s[1..]);
      case Some(m) =>
        UrlCleanSuffix(s, m.end);
        BearersKeepUrlsClean(s[m.end..]);
        MatchedBearerKeepsUrls(s, RedactBearers(s[m.end..]));
    }
  }

  lemma MatchedBearerKeepsUrls(s: string, t: string)
    requires BearerMatch(s).Some? && UrlClean(t)
    ensures UrlClean(s[..BearerMatch(s).value.group] + MARK + t)
  {
    BearerPrefix(s);
    UrlCleanAcross(s[..BearerMatch(s).value.group] + MARK, t);
  }

  /** Whatever goes in, what comes out is clean. */
  lemma SanitizedIsClean(s: string)
    ensures Clean(SanitizeText(s))
  {
    UrlsAreRedacted(s);
    BearersKeepUrlsClean(RedactUrls(s));
    BearersAreRedacted(RedactUrls(s));
  }

  /** The fixed points of the redactor are the clean strings, so it is idempotent. */
  lemma FixedPoints(s: string)
    ensures SanitizeText(s) == s <==> Clean(s)
    ensures SanitizeText(SanitizeText(s)) == SanitizeText(s)
  {
    forall t | Clean(t) ensures SanitizeText(t) == t {
      CleanUrlsStay(t);
      CleanBearersStay(t);
    }
    SanitizedIsClean(s);
  }

  // ---------------------------------------------------------------- what clean means

  ghost predicate RedactedHere(s: string) {
    forall g: nat, e: nat :: UrlSyntax(s, g, e) ==> s[g..e] == MARK + "@"
  }

  ghost predicate NoBearerHere(s: string) {
    forall g: nat, t: nat, e: nat :: !BearerSyntax(s, g, t, e)
  }

  lemma HereMeaning(s: string)
    ensures HeadRedacted(s) <==> RedactedHere(s)
    ensures BearerMatch(s).None? <==> NoBearerHere(s)
  {
    UrlMatchBounds(s);
    if UrlMatch(s).Some? {
      UrlMatchIsSyntax(s, UrlMatch(s).value.group, UrlMatch(s).value.end);
    }
    forall g: nat, e: nat | UrlSyntax(s, g, e) ensures UrlMatch(s) == Some(Match(g, e)) {
      UrlMatchIsSyntax(s, g, e);
    }
    BearerMatchIsLongest(s);
  }

  /** `Clean`, said over every place of the string and every word of the two languages. */
  lemma {:induction false} CleanMeaning(s: string)
    ensures UrlClean(s) <==> forall i :: 0 <= i < |s| ==> RedactedHere(s[i..])
    ensures BearerClean(s) <==> forall i :: 0 <= i < |s| ==> NoBearerHere(s[i..])
  {
    if s != "" {
      CleanMeaning(s[1..]);
      HereMeaning(s);
      assert s[0..] == s;
      assert forall i :: 0 <= i < |s| - 1 ==> s[1..][i..] == s[i + 1..];
      assert forall i :: 1 <= i < |s| ==> s[i..] == s[1..][i - 1..];
    }
  }

  // ---------------------------------------------------------------- the character classes, by code point

  ghost predicate Between(low: int, c: char, high: int) {
    low <= c as int <= high
  }

  ghost predicate AsciiWordCode(c: char) {
    Between(0x30, c, 0x39) || Between(0x41, c, 0x5A) || Between(0x61, c, 0x7A)
  }

  /** The classes of the two patterns on ASCII text, by the codes of their characters. */
  lemma ClassesByCode(c: char)
    requires c as int < 0x80
    ensures SchemeChar(c) <==> AsciiWordCode(c) || c as int in {0x2B, 0x2D, 0x2E}
    ensures TokenChar(c) <==> AsciiWordCode(c) || c as int in {0x2B, 0x2D, 0x2E, 0x2F, 0x5F, 0x7E}
    ensures CredentialChar(c) <==> c as int !in {0x2F, 0x40} && !Between(0x09, c, 0x0D) && !Between(0x1C, c, 0x20)
    ensures Space(c) <==> Between(0x09, c, 0x0D) || Between(0x1C, c, 0x20)
    ensures Fold(c) as int == if Between(0x41, c, 0x5A) then c as int + 0x20 else c as int
  {}

  // ---------------------------------------------------------------- what redaction does

  /** word(s, g, e): a word of the pattern stands at the start of s, with group 1 ending at g and
      the word at e. */
  type Language = (string, nat, nat) -> bool

  ghost predicate WordTo(word: Language, s: string, g: nat, e: nat) {
    g <= e <= |s| && 0 < e && word(s, g, e)
  }

  ghost predicate WordAt(word: Language, s: string) {
    exists g: nat, e: nat :: WordTo(word, s, g, e)
  }

  /** r is s with the words replaced: text is copied up to the leftmost word, group 1 stays, the
      mark follows, and the same goes for the rest behind the word. */
  ghost predicate Replaced(word: Language, mark: string, s: string, r: string)
    decreases |s|, 1
  {
    if s == "" then r == ""
    else if WordAt(word, s) then
      exists g: nat, e: nat :: WordTo(word, s, g, e) && ReplacedWord(word, mark, s, r, g, e)
    else r != "" && r[0] == s[0] && Replaced(word, mark, s[1..], r[1..])
  }

  ghost predicate ReplacedWord(word: Language, mark: string, s: string, r: string, g: nat, e: nat)
    requires g <= e <= |s| && 0 < e
    decreases |s|, 0
  {
    g + |mark| <= |r| && r[..g] == s[..g] && r[g..g + |mark|] == mark &&
    Replaced(word, mark, s[e..], r[g + |mark|..])
  }

  /** The finder finds exactly the words. */
  ghost predicate FindsWords(find: Finder, word: Language) {
    Sound(find) && forall s, g: nat, e: nat :: WordTo(word, s, g, e) <==> find(s) == Some(Match(g, e))
  }

  lemma Pieces(a: string, mark: string, b: string)
    ensures (a + mark + b)[..|a|] == a
    ensures (a + mark + b)[|a|..|a| + |mark|] == mark
    ensures (a + mark + b)[|a| + |mark|..] == b
  {}

  lemma {:induction false} SubstituteReplaces(find: Finder, word: Language, mark: string, s: string)
    requires FindsWords(find, word)
    ensures Replaced(word, mark, s, Substitute(find, mark, s))
    decreases |s|
  {
    if s != "" {
      SubstituteStep(find, mark, s);
      match find(s)
      case None =>
        SubstituteReplaces(find, word, mark, s[1..]);
        assert ([s[0]] + Substitute(find, mark, s[1..]))[1..] == Substitute(find, mark, s[1..]);
      case Some(m) =>
        SubstituteReplaces(find, word, mark, s[m.end..]);
        Pieces(s[..m.group], mark, Substitute(find, mark, s[m.end..]));
        assert WordTo(word, s, m.group, m.end);
        assert ReplacedWord(word, mark, s, Substitute(find, mark, s), m.group, m.end);
    }
  }

  lemma FoundIsWord(find: Finder, word: Language, s: string)
    requires FindsWords(find, word)
    ensures find(s).Some? <==> WordAt(word, s)
    ensures find(s).Some? ==> WordTo(word, s, find(s).value.group, find(s).value.end)
  {
    if find(s).Some? { assert WordTo(word, s, find(s).value.group, find(s).value.end); }
  }

  lemma {:induction false} OnlySubstituteReplaces(find: Finder, word: Language, mark: string, s: string, r: string)
    requires FindsWords(find, word) && Replaced(word, mark, s, r)
    ensures r == Substitute(find, mark, s)
    decreases |s|
  {
    if s != "" {
      SubstituteStep(find, mark, s);
      FoundIsWord(find, word, s);
      if find(s).Some? {
        var g, e, rest := WordReplaced(find, word, mark, s, r);
        OnlySubstituteReplaces(find, word, mark, s[e..], rest);
      } else {
        OnlySubstituteReplaces(find, word, mark, s[1..], r[1..]);
        assert r == [r[0]] + r[1..];
      }
    }
  }

  lemma WordReplaced(find: Finder, word: Language, mark: string, s: string, r: string)
    returns (g: nat, e: nat, rest: string)
    requires FindsWords(find, word) && Replaced(word, mark, s, r) && s != "" && find(s).Some?
    ensures find(s) == Some(Match(g, e)) && g <= e <= |s| && 0 < e
    ensures r == s[..g] + mark + rest && Replaced(word, mark, s[e..], rest)
  {
    FoundIsWord(find, word, s);
    g, e :| WordTo(word, s, g, e) && ReplacedWord(word, mark, s, r, g, e);
    rest := r[g + |mark|..];
    assert r == r[..g] + r[g..g + |mark|] + rest;
  }

  /** A bearer token, in its longest reading. */
  ghost predicate LongestBearer(s: string, g: nat, e: nat) {
    && (exists t: nat :: BearerSyntax(s, g, t, e))
    && forall h: nat, t: nat, f: nat :: BearerSyntax(s, h, t, f) ==> f <= e
  }

  lemma FindersFindWords()
    ensures FindsWords(UrlMatch, UrlSyntax) && FindsWords(BearerMatch, LongestBearer)
  {
    FindersAreSound();
    forall s, g: nat, e: nat ensures WordTo(UrlSyntax, s, g, e) <==> UrlMatch(s) == Some(Match(g, e)) {
      UrlMatchIsSyntax(s, g, e);
    }
    forall s, g: nat, e: nat ensures WordTo(LongestBearer, s, g, e) <==> BearerMatch(s) == Some(Match(g, e)) {
      LongestIsFound(s, g, e);
    }
  }

  lemma LongestIsFound(s: string, g: nat, e: nat)
    ensures LongestBearer(s, g, e) <==> BearerMatch(s) == Some(Match(g, e))
    ensures LongestBearer(s, g, e) ==> g <= e <= |s| && 0 < e
  {
    BearerMatchIsLongest(s);
    if BearerMatch(s) == Some(Match(g, e)) {
      var t := BearerMatchIsWord(s);
      assert BearerSyntax(s, g, t, e);
    }
    if LongestBearer(s, g, e) {
      var t: nat :| BearerSyntax(s, g, t, e);
      var u := BearerMatchIsWord(s);
    }
  }

  lemma UrlsAreReplaced(s: string, u: string)
    ensures Replaced(UrlSyntax, "<redacted>@", s, u) <==> u == RedactUrls(s)
  {
    FindersFindWords();
    assert MARK + "@" == "<redacted>@";
    SubstituteReplaces(UrlMatch, UrlSyntax, "<redacted>@", s);
    if Replaced(UrlSyntax, "<redacted>@", s, u) {
      OnlySubstituteReplaces(UrlMatch, UrlSyntax, "<redacted>@", s, u);
    }
  }

  lemma BearersAreReplaced(u: string, r: string)
    ensures Replaced(LongestBearer, "<redacted>", u, r) <==> r == RedactBearers(u)
  {
    FindersFindWords();
    SubstituteReplaces(BearerMatch, LongestBearer, "<redacted>", u);
    if Replaced(LongestBearer, "<redacted>", u, r) {
      OnlySubstituteReplaces(BearerMatch, LongestBearer, "<redacted>", u, r);
    }
  }

  /** `_sanitize_text` for every string: every URL credential is replaced, then every bearer token,
      and nothing else changes. */
  lemma SanitizeMeaning(s: string, r: string)
    ensures r == SanitizeText(s) <==>
            exists u :: Replaced(UrlSyntax, "<redacted>@", s, u) && Replaced(LongestBearer, "<redacted>", u, r)
  {
    var v := RedactUrls(s);
    UrlsAreReplaced(s, v);
    BearersAreReplaced(v, r);
    if u :| Replaced(UrlSyntax, "<redacted>@", s, u) && Replaced(LongestBearer, "<redacted>", u, r) {
      UrlsAreReplaced(s, u);
    }
  }
}
