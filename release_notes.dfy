/**
 * The release-notes generator of build/generate-release-notes.js: parsing a
 * Conventional Commits message, cutting the `git log` output into commits,
 * sorting them into categories and rendering the Markdown sections.  The
 * two `git` invocations are parameters: the text a command prints, or
 * `None` when it fails.
 */
module ReleaseNotes {
  import opened Types
  import opened Strings

  // ---------------------------------------------------------------------
  // The header `^(\w+)(?:\(([^)]+)\))?(!)?:\s*(.+)$`
  // ---------------------------------------------------------------------

  /** `\w`. */
  predicate IsWordChar(c: char) {
    'a' <= c <= 'z' || 'A' <= c <= 'Z' || '0' <= c <= '9' || c == '_'
  }

  /** The length of the longest prefix of word characters. */
  function WordLength(s: string): (n: nat)
    ensures n <= |s| && (forall i :: 0 <= i < n ==> IsWordChar(s[i])) && (n == |s| || !IsWordChar(s[n]))
  {
    if s == [] || !IsWordChar(s[0]) then 0 else 1 + WordLength(s[1..])
  }

  /** The length of the longest prefix of `\s` characters. */
  function SpaceLength(s: string): (n: nat)
    ensures n <= |s| && (forall i :: 0 <= i < n ==> IsWhitespace(s[i])) && (n == |s| || !IsWhitespace(s[n]))
  {
    if s == [] || !IsWhitespace(s[0]) then 0 else 1 + SpaceLength(s[1..])
  }

  /** What `.` can match: no line terminator. */
  predicate NoTerminator(s: string) {
    forall i :: 0 <= i < |s| ==> !IsLineTerminator(s[i])
  }

  /** The four capture groups, with the `\s*` run between the colon and the subject. */
  datatype Header = Header(word: string, scope: Option<string>, bang: bool, gap: string, rest: string)

  function ScopeText(scope: Option<string>): string {
    match scope
    case None => ""
    case Some(s) => "(" + s + ")"
  }

  /** The text a header is made of. */
  function Render(h: Header): string {
    h.word + ScopeText(h.scope) + Tail(h)
  }

  /** `\w+`. */
  predicate WordOk(w: string) {
    |w| > 0 && forall i :: 0 <= i < |w| ==> IsWordChar(w[i])
  }

  /** `[^)]+`, when the group is present. */
  predicate ScopeOk(scope: Option<string>) {
    scope.Some? ==> |scope.value| > 0 && ')' !in scope.value
  }

  /**
   * `\s*(.+)$`: a whitespace gap, then a non-empty rest without line
   * terminators that starts after all the whitespace unless it is the one
   * character `.+` needs.
   */
  predicate SubjectOk(gap: string, rest: string) {
    (forall i :: 0 <= i < |gap| ==> IsWhitespace(gap[i])) &&
    |rest| > 0 && NoTerminator(rest) && (|rest| == 1 || !IsWhitespace(rest[0]))
  }

  /** The captures the regex can produce. */
  predicate WellShaped(h: Header) {
    WordOk(h.word) && ScopeOk(h.scope) && SubjectOk(h.gap, h.rest)
  }

  /** `(?:\(([^)]+)\))?`: a parenthesised scope up to the first `)`, if there is a non-empty one. */
  function ScopePart(x: string): (Option<string>, string) {
    var close := if |x| > 0 && x[0] == '(' then IndexOf(x[1..], ")") else -1;
    if close > 0 then (Some(x[1..1 + close]), x[close + 2..]) else (None, x)
  }

  /** `(!)?:`: whether the `!` is there, and the text after the colon. */
  function BangColon(x: string): Option<(bool, string)> {
    var bang := |x| > 0 && x[0] == '!';
    var r := if bang then x[1..] else x;
    if |r| == 0 || r[0] != ':' then None else Some((bang, r[1..]))
  }

  /** `\s*(.+)$` after the colon: the whitespace run and a non-empty rest without line terminators. */
  function SubjectPart(x: string): Option<(string, string)> {
    var m := SpaceLength(x);
    if m < |x| then
      if NoTerminator(x[m..]) then Some((x[..m], x[m..])) else None
    else if |x| > 0 && !IsLineTerminator(x[|x| - 1]) then Some((x[..|x| - 1], x[|x| - 1..]))
    else None
  }

  /**
   * `line.match(conventionalRegex)`.  The regex is deterministic: `\w+` must
   * stop before `(`, `!` or `:`; `[^)]+` must stop at the first `)`; and
   * `\s*` gives back one character only when the rest would be empty.
   */
  function MatchHeader(line: string): Option<Header> {
    var n := WordLength(line);
    if n == 0 then None else AfterScope(line[..n], ScopePart(line[n..]).0, ScopePart(line[n..]).1)
  }

  /** `(!)?:` and the subject, after the word and the scope. */
  function AfterScope(word: string, scope: Option<string>, r1: string): Option<Header> {
    match BangColon(r1)
    case None => None
    case Some((bang, x)) =>
      match SubjectPart(x)
      case None => None
      case Some((gap, rest)) => Some(Header(word, scope, bang, gap, rest))
  }

  function BangText(bang: bool): string {
    if bang then "!" else ""
  }

  /** The text after the scope that a header is made of. */
  function Tail(h: Header): string {
    BangText(h.bang) + ":" + (h.gap + h.rest)
  }

  lemma ScopePartSound(x: string)
    ensures x == ScopeText(ScopePart(x).0) + ScopePart(x).1
    ensures ScopeOk(ScopePart(x).0)
  {
    var close := if |x| > 0 && x[0] == '(' then IndexOf(x[1..], ")") else -1;
    if close > 0 {
      var s := x[1..1 + close];
      forall j | 0 <= j < |s| ensures s[j] != ')' {
        assert !OccursAt(x[1..], ")", j);
        assert x[1..][j..j + 1] == [s[j]];
      }
      assert x[1..][close..close + 1] == ")";
      assert x == "(" + s + ")" + x[close + 2..];
    }
  }

  lemma BangColonSound(x: string)
    ensures BangColon(x).Some? ==> x == BangText(BangColon(x).value.0) + ":" + BangColon(x).value.1
  {
    if BangColon(x).Some? {
      if x[0] == '!' {
        assert x == "!" + ":" + x[2..];
      } else {
        assert x == "" + ":" + x[1..];
      }
    }
  }

  lemma SubjectPartSound(x: string)
    ensures SubjectPart(x).Some? ==>
              x == SubjectPart(x).value.0 + SubjectPart(x).value.1 && SubjectOk(SubjectPart(x).value.0, SubjectPart(x).value.1)
  {
    var m := SpaceLength(x);
    assert x == x[..m] + x[m..];
    if m == |x| && |x| > 0 {
      assert x == x[..|x| - 1] + x[|x| - 1..];
    }
  }

  lemma AfterScopeSound(word: string, scope: Option<string>, r1: string)
    ensures AfterScope(word, scope, r1).Some? ==>
              var h := AfterScope(word, scope, r1).value;
              h.word == word && h.scope == scope && Tail(h) == r1 && SubjectOk(h.gap, h.rest)
  {
    BangColonSound(r1);
    if BangColon(r1).Some? {
      SubjectPartSound(BangColon(r1).value.1);
    }
  }

  /** Every match is a well-shaped header, and its captures make up the whole line. */
  lemma MatchHeaderSound(line: string)
    ensures MatchHeader(line).Some? ==> WellShaped(MatchHeader(line).value) && Render(MatchHeader(line).value) == line
  {
    if MatchHeader(line).Some? {
      MatchedParts(line, WordLength(line), MatchHeader(line).value);
    }
  }

  lemma MatchedParts(line: string, n: nat, h: Header)
    requires n == WordLength(line) && n > 0
    requires AfterScope(line[..n], ScopePart(line[n..]).0, ScopePart(line[n..]).1) == Some(h)
    ensures WellShaped(h) && Render(h) == line
  {
    WordPrefix(line, n);
    WholeHeader(line, line[..n], line[n..], h);
  }

  lemma WordPrefix(line: string, n: nat)
    requires n == WordLength(line) && n > 0
    ensures WordOk(line[..n]) && line == line[..n] + line[n..]
  {
  }

  lemma WholeHeader(line: string, w: string, x: string, h: Header)
    requires line == w + x && WordOk(w)
    requires AfterScope(w, ScopePart(x).0, ScopePart(x).1) == Some(h)
    ensures WellShaped(h) && Render(h) == line
  {
    ScopePartSound(x);
    AssembledHeader(w, x, ScopePart(x).0, ScopePart(x).1, h);
  }

  lemma AssembledHeader(w: string, x: string, scope: Option<string>, r1: string, h: Header)
    requires x == ScopeText(scope) + r1 && ScopeOk(scope)
    requires AfterScope(w, scope, r1) == Some(h)
    ensures Render(h) == w + x && h.word == w && ScopeOk(h.scope) && SubjectOk(h.gap, h.rest)
  {
    AfterScopeSound(w, scope, r1);
    RenderOf(h, w, ScopeText(scope), r1);
  }

  lemma RenderOf(h: Header, w: string, s: string, r1: string)
    requires h.word == w && ScopeText(h.scope) == s && Tail(h) == r1
    ensures Render(h) == w + (s + r1)
  {
    assert (w + s) + r1 == w + (s + r1);
  }

  lemma WordLengthOf(w: string, x: string)
    requires forall i :: 0 <= i < |w| ==> IsWordChar(w[i])
    requires x == [] || !IsWordChar(x[0])
    ensures WordLength(w + x) == |w|
  {
    assert forall i :: 0 <= i < |w| ==> (w + x)[i] == w[i];
    assert |x| > 0 ==> (w + x)[|w|] == x[0];
  }

  lemma SpaceLengthOf(w: string, x: string)
    requires forall i :: 0 <= i < |w| ==> IsWhitespace(w[i])
    requires x == [] || !IsWhitespace(x[0])
    ensures SpaceLength(w + x) == |w|
  {
    assert forall i :: 0 <= i < |w| ==> (w + x)[i] == w[i];
    assert |x| > 0 ==> (w + x)[|w|] == x[0];
  }

  lemma IndexOfClose(s: string, x: string)
    requires ')' !in s
    ensures IndexOf(s + ")" + x, ")") == |s|
  {
    var t := s + ")" + x;
    assert OccursAt(t, ")", |s|) by {
      assert t[|s|..|s| + 1] == ")";
    }
    forall j | 0 <= j < |s|
      ensures !OccursAt(t, ")", j)
    {
      assert t[j..j + 1] == [s[j]];
    }
  }

  lemma ScopePartComplete(scope: Option<string>, r: string)
    requires ScopeOk(scope)
    requires scope.None? ==> r == [] || r[0] != '('
    ensures ScopePart(ScopeText(scope) + r) == (scope, r)
  {
    if scope.Some? {
      var s := scope.value;
      var x := ScopeText(scope) + r;
      assert x == "(" + (s + ")" + r);
      assert x[1..] == s + ")" + r;
      IndexOfClose(s, r);
      assert x[1..1 + |s|] == s;
      assert x[|s| + 2..] == r;
    } else {
      assert ScopeText(scope) + r == r;
    }
  }

  lemma BangColonComplete(bang: bool, x: string)
    ensures BangColon(BangText(bang) + ":" + x) == Some((bang, x))
  {
    var r := ":" + x;
    assert r[0] == ':' && r[1..] == x;
    if bang {
      assert BangText(bang) + ":" + x == "!" + r;
    } else {
      assert BangText(bang) + ":" + x == r;
    }
  }

  lemma SubjectPartComplete(gap: string, rest: string)
    requires SubjectOk(gap, rest)
    ensures SubjectPart(gap + rest) == Some((gap, rest))
  {
    var x := gap + rest;
    if |rest| == 1 && IsWhitespace(rest[0]) {
      assert forall i :: 0 <= i < |x| ==> IsWhitespace(x[i]);
      assert SpaceLength(x) == |x|;
      assert x[|x| - 1] == rest[0];
      assert x[..|x| - 1] == gap && x[|x| - 1..] == rest;
    } else {
      SpaceLengthOf(gap, rest);
      assert x[..|gap|] == gap && x[|gap|..] == rest;
    }
  }

  /** Every well-shaped header is matched, with exactly these captures. */
  lemma MatchHeaderComplete(h: Header)
    requires WellShaped(h)
    ensures MatchHeader(Render(h)) == Some(h)
  {
    var x := ScopeText(h.scope) + Tail(h);
    assert Render(h) == h.word + x;
    TailStart(h);
    ScopePartComplete(h.scope, Tail(h));
    AfterScopeComplete(h);
    MatchAtWord(h.word, x, h);
  }

  /** The text after the word starts with `(`, `!` or `:`, so `\w+` stops there. */
  lemma TailStart(h: Header)
    ensures |Tail(h)| > 0 && (Tail(h)[0] == '!' || Tail(h)[0] == ':')
    ensures |ScopeText(h.scope) + Tail(h)| > 0 && !IsWordChar((ScopeText(h.scope) + Tail(h))[0])
  {
    assert Tail(h) == BangText(h.bang) + (":" + (h.gap + h.rest));
  }

  lemma AfterScopeComplete(h: Header)
    requires SubjectOk(h.gap, h.rest)
    ensures AfterScope(h.word, h.scope, Tail(h)) == Some(h)
  {
    BangColonComplete(h.bang, h.gap + h.rest);
    SubjectPartComplete(h.gap, h.rest);
  }

  lemma MatchAtWord(w: string, x: string, h: Header)
    requires WordOk(w) && |x| > 0 && !IsWordChar(x[0])
    requires AfterScope(w, ScopePart(x).0, ScopePart(x).1) == Some(h)
    ensures MatchHeader(w + x) == Some(h)
  {
    WordLengthOf(w, x);
    assert (w + x)[..|w|] == w && (w + x)[|w|..] == x;
  }

  // ---------------------------------------------------------------------
  // parseCommit
  // ---------------------------------------------------------------------

  /** `/^BREAKING[ -]CHANGE:/im`: at the start of the message or of a line, ignoring case. */
  predicate HasBreakingFooter(message: string) {
    exists i :: 0 <= i <= |message| - 16 && FooterAt(message, i)
  }

  /** The footer phrase starts at `i`, which begins the message or a line. */
  predicate FooterAt(message: string, i: int) {
    0 <= i <= |message| - 16 && (i == 0 || IsLineTerminator(message[i - 1])) &&
    (Lower(message[i..i + 16]) == "breaking change:" || Lower(message[i..i + 16]) == "breaking-change:")
  }

  /** A footer line found after a line break, whatever precedes it. */
  lemma FooterOnLaterLine(before: string, sep: char, line: string)
    requires IsLineTerminator(sep) && |line| >= 16
    requires Lower(line[..16]) == "breaking change:" || Lower(line[..16]) == "breaking-change:"
    ensures HasBreakingFooter(line) && HasBreakingFooter(before + [sep] + line)
  {
    var m := before + [sep] + line;
    assert m[|before| + 1..|before| + 17] == line[..16];
    assert m[|before|] == sep;
    assert line[0..16] == line[..16];
    assert FooterAt(line, 0);
    assert FooterAt(m, |before| + 1);
  }

  /** A footer is an occurrence of one of the two phrases in the lower-cased message. */
  lemma FooterIsContained(message: string)
    ensures HasBreakingFooter(message) ==>
              Contains(Lower(message), "breaking change:") || Contains(Lower(message), "breaking-change:")
  {
    if HasBreakingFooter(message) {
      var i :| 0 <= i <= |message| - 16 && FooterAt(message, i);
      var w := Lower(message[i..i + 16]);
      LowerSlice(message, i, i + 16);
      ContainsAt(Lower(message), w, i);
    }
  }

  /** A parsed commit, without its hash. */
  datatype ParsedCommit = ParsedCommit(kind: string, scope: Option<string>, breaking: bool, subject: string, rawMessage: string)

  /** `message.split('\n')[0].trim()`. */
  function FirstLine(message: string): string {
    Trim(Split(message, "\n")[0])
  }

  /** `parseCommit(message)`. */
  function ParseCommit(message: string): ParsedCommit {
    var line := FirstLine(message);
    match MatchHeader(line)
    case None => ParsedCommit("other", None, false, line, message)
    case Some(h) => ParsedCommit(Lower(h.word), h.scope, h.bang || HasBreakingFooter(message), Trim(h.rest), message)
  }

  lemma RenderLast(h: Header)
    requires |h.rest| > 0
    ensures |Render(h)| >= |h.rest| && Render(h)[|Render(h)| - 1] == h.rest[|h.rest| - 1]
  {
    var front := h.word + ScopeText(h.scope) + (BangText(h.bang) + ":" + h.gap);
    assert Render(h) == front + h.rest;
  }

  /** Lower-casing a word leaves a word without capitals. */
  lemma LowerWord(w: string)
    requires forall i :: 0 <= i < |w| ==> IsWordChar(w[i])
    ensures forall i :: 0 <= i < |Lower(w)| ==> IsWordChar(Lower(w)[i]) && !('A' <= Lower(w)[i] <= 'Z')
  {
  }

  /**
   * A message whose first line is not a Conventional Commits header is an
   * `other` commit with that line as subject, never breaking.
   */
  lemma ParseCommitOther(message: string)
    requires MatchHeader(FirstLine(message)).None?
    ensures ParseCommit(message) == ParsedCommit("other", None, false, FirstLine(message), message)
    ensures !ParseCommit(message).breaking && Trimmed(ParseCommit(message).subject)
  {
    TrimSpec(Split(message, "\n")[0]);
  }

  /**
   * A header gives a lower-case type and a non-empty scope without `)`;
   * `breaking` holds exactly for `!` before the colon or a footer line.
   */
  lemma ParseCommitHeader(message: string)
    requires MatchHeader(FirstLine(message)).Some?
    ensures var p := ParseCommit(message); var h := MatchHeader(FirstLine(message)).value;
            p.rawMessage == message && |p.kind| > 0 && p.kind == Lower(h.word) &&
            (forall i :: 0 <= i < |p.kind| ==> IsWordChar(p.kind[i]) && !('A' <= p.kind[i] <= 'Z')) &&
            p.scope == h.scope && (p.scope.Some? ==> p.scope.value != "" && ')' !in p.scope.value) &&
            (p.breaking <==> h.bang || HasBreakingFooter(message))
  {
    var line := FirstLine(message);
    var h := MatchHeader(line).value;
    MatchedShaped(line);
    assert ParseCommit(message) == ParsedCommit(Lower(h.word), h.scope, h.bang || HasBreakingFooter(message), Trim(h.rest), message);
    LowerWord(h.word);
  }

  lemma MatchedShaped(line: string)
    requires MatchHeader(line).Some?
    ensures WordOk(MatchHeader(line).value.word) && ScopeOk(MatchHeader(line).value.scope)
  {
    MatchHeaderSound(line);
  }

  /** The subject of a header is the non-empty, trimmed, one-line text after the colon and its spaces. */
  lemma ParseCommitSubject(message: string)
    requires MatchHeader(FirstLine(message)).Some?
    ensures var p := ParseCommit(message); var h := MatchHeader(FirstLine(message)).value;
            p.subject == h.rest && p.subject != "" && Trimmed(p.subject) && NoTerminator(p.subject)
  {
    TrimSpec(Split(message, "\n")[0]);
    HeaderRestTrimmed(FirstLine(message));
  }

  lemma HeaderRestTrimmed(line: string)
    requires Trimmed(line) && MatchHeader(line).Some?
    ensures var r := MatchHeader(line).value.rest;
            r != "" && Trimmed(r) && NoTerminator(r) && Trim(r) == r
  {
    MatchHeaderSound(line);
    var h := MatchHeader(line).value;
    RenderLast(h);
    assert Trimmed(h.rest);
    TrimSpec(h.rest);
  }

  /** The example headers of Conventional Commits parse as expected. */
  lemma ParseCommitExamples()
    ensures ParseCommit("feat(ui)!: add") == ParsedCommit("feat", Some("ui"), true, "add", "feat(ui)!: add")
  {
    var m := "feat(ui)!: add";
    ExampleHeader();
    ExampleFirstLine();
    ParseCommitHeader(m);
    ParseCommitSubject(m);
    ExampleChars();
  }

  lemma ExampleHeader()
    ensures MatchHeader("feat(ui)!: add") == Some(Header("feat", Some("ui"), true, " ", "add"))
  {
    var h := Header("feat", Some("ui"), true, " ", "add");
    ExampleRender(h);
    ExampleShaped(h);
    MatchHeaderComplete(h);
  }

  lemma ExampleRender(h: Header)
    requires h == Header("feat", Some("ui"), true, " ", "add")
    ensures Render(h) == "feat(ui)!: add"
  {
    assert ScopeText(h.scope) == "(ui)";
    assert Tail(h) == "!: add";
    assert "feat" + "(ui)" + "!: add" == "feat(ui)!: add";
  }

  lemma ExampleShaped(h: Header)
    requires h == Header("feat", Some("ui"), true, " ", "add")
    ensures WellShaped(h)
  {
  }

  lemma ExampleFirstLine()
    ensures FirstLine("feat(ui)!: add") == "feat(ui)!: add"
  {
    ExampleChars();
    FirstLineOfOneLine("feat(ui)!: add");
  }

  /** A trimmed string without a line feed is its own first line. */
  lemma FirstLineOfOneLine(s: string)
    requires '\n' !in s && Trimmed(s)
    ensures FirstLine(s) == s
  {
    OneLine(s);
    TrimSpec(s);
  }

  lemma ExampleChars()
    ensures '\n' !in "feat(ui)!: add" && Trimmed("feat(ui)!: add")
    ensures Lower("feat") == "feat"
  {
    var m := "feat(ui)!: add";
    forall i | 0 <= i < |m| ensures m[i] != '\n' {
    }
    var l := Lower("feat");
    assert l[0] == 'f' && l[1] == 'e' && l[2] == 'a' && l[3] == 't';
  }

  /** A string without a line feed is its own first line. */
  lemma OneLine(s: string)
    requires '\n' !in s
    ensures Split(s, "\n") == [s]
  {
    CharsOfContained(s, "\n", '\n');
    SplitMany(s, "\n");
    JoinSplit(s, "\n");
  }

  // ---------------------------------------------------------------------
  // getCommits
  // ---------------------------------------------------------------------

  /** The characters `[a-zA-Z0-9._\-\/]` that the tag sanitiser keeps. */
  predicate TagChar(c: char) {
    'a' <= c <= 'z' || 'A' <= c <= 'Z' || '0' <= c <= '9' || c == '.' || c == '_' || c == '-' || c == '/'
  }

  /** `tag.replace(/[^a-zA-Z0-9._\-\/]/g, '')`. */
  function Sanitize(s: string): (r: string)
    ensures |r| <= |s|
  {
    if s == [] then []
    else Sanitize(s[..|s| - 1]) + (if TagChar(s[|s| - 1]) then [s[|s| - 1]] else [])
  }

  /** `a` is `b` with some characters left out. */
  predicate Subsequence(a: string, b: string)
    decreases |b|
  {
    if a == [] then true
    else if b == [] then false
    else if a[|a| - 1] == b[|b| - 1] then Subsequence(a[..|a| - 1], b[..|b| - 1])
    else Subsequence(a, b[..|b| - 1])
  }

  lemma SubsequenceExtend(a: string, b: string, c: char)
    requires Subsequence(a, b)
    ensures (a == [] || a[|a| - 1] != c) ==> Subsequence(a, b + [c])
    ensures Subsequence(a + [c], b + [c])
  {
    assert (a + [c])[..|a|] == a && (b + [c])[..|b|] == b;
  }

  lemma {:induction false} SanitizeAllowed(s: string)
    ensures forall i :: 0 <= i < |Sanitize(s)| ==> TagChar(Sanitize(s)[i])
  {
    if s != [] {
      SanitizeAllowed(s[..|s| - 1]);
    }
  }

  lemma {:induction false} SanitizeKeeps(s: string)
    requires forall i :: 0 <= i < |s| ==> TagChar(s[i])
    ensures Sanitize(s) == s
  {
    if s != [] {
      SanitizeKeeps(s[..|s| - 1]);
      assert s[..|s| - 1] + [s[|s| - 1]] == s;
    }
  }

  lemma {:induction false} SanitizeSubsequence(s: string)
    ensures Subsequence(Sanitize(s), s)
  {
    if s != [] {
      var init := s[..|s| - 1];
      var c := s[|s| - 1];
      var a := Sanitize(init);
      SanitizeSubsequence(init);
      SubsequenceExtend(a, init, c);
      assert init + [c] == s;
      if TagChar(c) {
        assert Sanitize(s) == a + [c];
      } else {
        assert Sanitize(s) == a;
        if a != [] {
          SanitizeAllowed(init);
          assert TagChar(a[|a| - 1]);
        }
      }
    }
  }

  /**
   * The sanitiser keeps exactly the allowed characters, in order: its result
   * has only allowed characters, leaves an allowed-only tag as it is, and
   * is a subsequence of the input.
   */
  lemma SanitizeSpec(s: string)
    ensures forall i :: 0 <= i < |Sanitize(s)| ==> TagChar(Sanitize(s)[i])
    ensures Subsequence(Sanitize(s), s)
    ensures (forall i :: 0 <= i < |s| ==> TagChar(s[i])) ==> Sanitize(s) == s
    ensures Sanitize(Sanitize(s)) == Sanitize(s)
  {
    SanitizeAllowed(s);
    SanitizeSubsequence(s);
    if forall i :: 0 <= i < |s| ==> TagChar(s[i]) {
      SanitizeKeeps(s);
    }
    SanitizeKeeps(Sanitize(s));
  }

  /** The `git log` command line `getCommits(fromTag, toTag)` runs. */
  function LogCommand(fromTag: string, toTag: string): string {
    "git log " + Sanitize(fromTag) + ".." + Sanitize(toTag) + " --format=%H%n%B%n--END-COMMIT--"
  }

  /** Whatever the tags, the only spaces, quotes or shell operators in the command are the fixed ones. */
  lemma LogCommandSafe(fromTag: string, toTag: string)
    ensures var args := Sanitize(fromTag) + ".." + Sanitize(toTag);
            LogCommand(fromTag, toTag) == "git log " + args + " --format=%H%n%B%n--END-COMMIT--" &&
            forall i :: 0 <= i < |args| ==> TagChar(args[i])
  {
    SanitizeAllowed(fromTag);
    SanitizeAllowed(toTag);
    var a := Sanitize(fromTag);
    var b := Sanitize(toTag);
    var args := a + ".." + b;
    forall i | 0 <= i < |args| ensures TagChar(args[i]) {
      if i < |a| {
        assert args[i] == a[i];
      } else if i >= |a| + 2 {
        assert args[i] == b[i - |a| - 2];
      }
    }
  }

  /** An allowed character is neither whitespace nor a character the shell treats specially. */
  lemma TagCharInert(c: char)
    requires TagChar(c)
    ensures !IsWhitespace(c) && c !in ";|&$`'\"<>()*?[]{}~#!\\"
  {
  }

  const EndMarker: string := "--END-COMMIT--"

  /** A commit of the log: the hash shortened, and the parsed message. */
  datatype Commit = Commit(hash: string, parsed: ParsedCommit)

  /** `hash.substring(0, 7)`. */
  function ShortHash(h: string): string {
    if |h| <= 7 then h else h[..7]
  }

  /** The strings with something besides whitespace, in order (`filter(b => b.trim())`). */
  function NonBlank(xs: seq<string>): (r: seq<string>)
    ensures |r| <= |xs|
  {
    if xs == [] then []
    else NonBlank(xs[..|xs| - 1]) + (if Trim(xs[|xs| - 1]) != "" then [xs[|xs| - 1]] else [])
  }

  lemma {:induction false} NonBlankMembers(xs: seq<string>)
    ensures forall x :: x in NonBlank(xs) <==> x in xs && Trim(x) != ""
  {
    if xs != [] {
      NonBlankMembers(xs[..|xs| - 1]);
      assert xs == xs[..|xs| - 1] + [xs[|xs| - 1]];
    }
  }

  /** The commit blocks of the log output. */
  function Blocks(log: string): seq<string> {
    NonBlank(Split(log, EndMarker))
  }

  /** `block.trim().split('\n')` cut into the hash line and the rest joined back, if there are two lines. */
  function BlockParts(block: string): Option<(string, string)> {
    var lines := Split(Trim(block), "\n");
    if |lines| < 2 then None else Some((lines[0], Join(lines[1..], "\n")))
  }

  /** One block: the hash line, then the message; a block without a second line is skipped. */
  function CommitOfBlock(block: string): Option<Commit> {
    match BlockParts(block)
    case None => None
    case Some((hashLine, body)) => Some(Commit(ShortHash(hashLine), ParseCommit(Trim(body))))
  }

  /** A string splits on `sep` into more than one piece exactly when it contains `sep`. */
  lemma SplitMany(s: string, sep: string)
    requires |sep| > 0
    ensures |Split(s, sep)| >= 2 <==> Contains(s, sep)
    ensures |Split(s, sep)| >= 2 ==> s == Split(s, sep)[0] + sep + Join(Split(s, sep)[1..], sep)
  {
    var parts := Split(s, sep);
    JoinSplit(s, sep);
    SplitPiecesAvoidSeparator(s, sep);
    if |parts| >= 2 {
      ContainsSelf(sep);
      ContainsInside(parts[0], sep, Join(parts[1..], sep), sep);
    } else {
      assert s == parts[0];
    }
  }

  /**
   * A block holds a commit exactly when its trimmed text has a line break;
   * the trimmed text is then the hash line, a line break and the message
   * text, and the hash line has no line break of its own.
   */
  lemma BlockPartsSpec(block: string)
    ensures BlockParts(block).Some? <==> Contains(Trim(block), "\n")
    ensures BlockParts(block).Some? ==>
              var (hashLine, body) := BlockParts(block).value;
              Trim(block) == hashLine + "\n" + body && !Contains(hashLine, "\n")
  {
    SplitMany(Trim(block), "\n");
    SplitPiecesAvoidSeparator(Trim(block), "\n");
  }

  /** The short hash is the first seven characters of the hash line, or all of a shorter one. */
  lemma ShortHashSpec(h: string)
    ensures |ShortHash(h)| == if |h| < 7 then |h| else 7
    ensures IsPrefix(ShortHash(h), h)
  {
  }

  /** The results of `f` that are present, in order. */
  function Collect<T>(xs: seq<string>, f: string -> Option<T>): (r: seq<T>)
    ensures |r| <= |xs|
  {
    if xs == [] then []
    else Collect(xs[..|xs| - 1], f) + (if f(xs[|xs| - 1]).Some? then [f(xs[|xs| - 1]).value] else [])
  }

  lemma {:induction false} CollectMembers<T>(xs: seq<string>, f: string -> Option<T>)
    ensures forall c :: c in Collect(xs, f) <==> exists i :: 0 <= i < |xs| && f(xs[i]) == Some(c)
  {
    if xs != [] {
      var init := xs[..|xs| - 1];
      CollectMembers(init, f);
      forall c ensures c in Collect(xs, f) <==> exists i :: 0 <= i < |xs| && f(xs[i]) == Some(c) {
        if c in Collect(init, f) {
          var i :| 0 <= i < |init| && f(init[i]) == Some(c);
          assert xs[i] == init[i];
        }
        if exists i :: 0 <= i < |xs| && f(xs[i]) == Some(c) {
          var i :| 0 <= i < |xs| && f(xs[i]) == Some(c);
          if i < |init| {
            assert init[i] == xs[i];
          }
        }
      }
    }
  }

  /** One more element adds its result, if any, at the end. */
  lemma CollectSnoc<T>(xs: seq<string>, i: nat, f: string -> Option<T>)
    requires i < |xs|
    ensures Collect(xs[..i + 1], f) == Collect(xs[..i], f) + (if f(xs[i]).Some? then [f(xs[i]).value] else [])
  {
    assert xs[..i + 1][..i] == xs[..i];
  }

  /** The commits of the blocks, in order. */
  function CommitsOf(blocks: seq<string>): seq<Commit> {
    Collect(blocks, CommitOfBlock)
  }

  /** `getCommits`: no commits when `git log` fails. */
  function CommitsFromLog(log: Option<string>): seq<Commit> {
    match log
    case None => []
    case Some(text) => CommitsOf(Blocks(text))
  }

  /** The commits are exactly those of the blocks that hold one, and there are no more of them than blocks. */
  lemma CommitsOfMembers(blocks: seq<string>)
    ensures forall c :: c in CommitsOf(blocks) <==> exists i :: 0 <= i < |blocks| && CommitOfBlock(blocks[i]) == Some(c)
    ensures |CommitsOf(blocks)| <= |blocks|
  {
    CollectMembers(blocks, CommitOfBlock);
  }

  /** The loop of `getCommits` over the blocks, pushing one result per block that yields one. */
  method CollectLoop<T>(xs: seq<string>, f: string -> Option<T>) returns (r: seq<T>)
    ensures r == Collect(xs, f)
  {
    r := [];
    var i := 0;
    while i < |xs|
      invariant 0 <= i <= |xs|
      invariant r == Collect(xs[..i], f)
    {
      CollectSnoc(xs, i, f);
      var c := f(xs[i]);
      if c.Some? {
        r := r + [c.value];
      }
      i := i + 1;
    }
    assert xs[..i] == xs;
  }

  /** `getCommits`: the commits parsed from the `git log` output, none when the command fails. */
  method GetCommits(fromTag: string, toTag: string, gitLog: string -> Option<string>) returns (commits: seq<Commit>)
    ensures commits == CommitsFromLog(gitLog(LogCommand(fromTag, toTag)))
  {
    var log := gitLog(LogCommand(fromTag, toTag));
    if log.None? {
      return [];
    }
    var blocks := Blocks(log.value);
    commits := CollectLoop(blocks, CommitOfBlock);
  }

  // ---------------------------------------------------------------------
  // getPreviousTag
  // ---------------------------------------------------------------------

  /** `getPreviousTag` from the output of `git tag --sort=-creatordate`: the second non-blank line. */
  function PreviousTag(tagList: Option<string>): Option<string> {
    match tagList
    case None => None
    case Some(text) =>
      var tags := NonBlank(Split(text, "\n"));
      if |tags| >= 2 then Some(tags[1]) else None
  }

  /** The previous tag is a non-blank single line of the listing. */
  lemma PreviousTagSpec(tagList: Option<string>)
    ensures PreviousTag(tagList).Some? <==> tagList.Some? && |NonBlank(Split(tagList.value, "\n"))| >= 2
    ensures PreviousTag(tagList).Some? ==>
              var t := PreviousTag(tagList).value;
              Trim(t) != "" && t in Split(tagList.value, "\n") && !Contains(t, "\n")
  {
    if tagList.Some? {
      var lines := Split(tagList.value, "\n");
      var tags := NonBlank(lines);
      if |tags| >= 2 {
        var t := tags[1];
        assert PreviousTag(tagList) == Some(t);
        assert t in tags;
        NonBlankMembers(lines);
        assert t in lines && Trim(t) != "";
        SplitPiecesAvoidSeparator(tagList.value, "\n");
      }
    }
  }

  // ---------------------------------------------------------------------
  // categorizeCommits
  // ---------------------------------------------------------------------

  datatype Category = Breaking | Feature | Fix | Performance | Refactor | Documentation | Other

  /** The category chain of `categorizeCommits`: `breaking` before the type. */
  function CategoryOf(c: Commit): Category {
    if c.parsed.breaking then Breaking
    else if c.parsed.kind == "feat" then Feature
    else if c.parsed.kind == "fix" then Fix
    else if c.parsed.kind == "perf" then Performance
    else if c.parsed.kind == "refactor" then Refactor
    else if c.parsed.kind == "docs" then Documentation
    else Other
  }

  datatype Categories = Categories(
    breaking: seq<Commit>, feat: seq<Commit>, fix: seq<Commit>, perf: seq<Commit>,
    refactor: seq<Commit>, docs: seq<Commit>, other: seq<Commit>)

  function Get(cat: Categories, k: Category): seq<Commit> {
    match k
    case Breaking => cat.breaking
    case Feature => cat.feat
    case Fix => cat.fix
    case Performance => cat.perf
    case Refactor => cat.refactor
    case Documentation => cat.docs
    case Other => cat.other
  }

  /** The commits of category `k`, in order. */
  function Bucket(cs: seq<Commit>, k: Category): seq<Commit> {
    if cs == [] then []
    else Bucket(cs[..|cs| - 1], k) + (if CategoryOf(cs[|cs| - 1]) == k then [cs[|cs| - 1]] else [])
  }

  function Categorized(cs: seq<Commit>): Categories {
    Categories(Bucket(cs, Breaking), Bucket(cs, Feature), Bucket(cs, Fix), Bucket(cs, Performance),
               Bucket(cs, Refactor), Bucket(cs, Documentation), Bucket(cs, Other))
  }

  function Total(cat: Categories): nat {
    |cat.breaking| + |cat.feat| + |cat.fix| + |cat.perf| + |cat.refactor| + |cat.docs| + |cat.other|
  }

  /** `categorizeCommits(commits)`. */
  method CategorizeCommits(commits: seq<Commit>) returns (cat: Categories)
    ensures cat == Categorized(commits)
  {
    cat := Categories([], [], [], [], [], [], []);
    var i := 0;
    while i < |commits|
      invariant 0 <= i <= |commits|
      invariant cat == Categorized(commits[..i])
    {
      var c := commits[i];
      assert commits[..i + 1][..i] == commits[..i] && commits[..i + 1][i] == c;
      if c.parsed.breaking {
        cat := cat.(breaking := cat.breaking + [c]);
      } else if c.parsed.kind == "feat" {
        cat := cat.(feat := cat.feat + [c]);
      } else if c.parsed.kind == "fix" {
        cat := cat.(fix := cat.fix + [c]);
      } else if c.parsed.kind == "perf" {
        cat := cat.(perf := cat.perf + [c]);
      } else if c.parsed.kind == "refactor" {
        cat := cat.(refactor := cat.refactor + [c]);
      } else if c.parsed.kind == "docs" {
        cat := cat.(docs := cat.docs + [c]);
      } else {
        cat := cat.(other := cat.other + [c]);
      }
      i := i + 1;
    }
    assert commits[..i] == commits;
  }

  /** Every commit lands in exactly one category, so the counts add up. */
  lemma {:induction false} CategorizedTotal(cs: seq<Commit>)
    ensures Total(Categorized(cs)) == |cs|
  {
    if cs != [] {
      CategorizedTotal(cs[..|cs| - 1]);
    }
  }

  /**
   * A category holds exactly the commits of that category; a breaking
   * commit goes to the breaking section whatever its type.
   */
  lemma {:induction false} BucketMembers(cs: seq<Commit>, k: Category)
    ensures forall c :: c in Get(Categorized(cs), k) <==> c in cs && CategoryOf(c) == k
    ensures k == Breaking ==> forall c :: c in Get(Categorized(cs), k) <==> c in cs && c.parsed.breaking
  {
    if cs != [] {
      BucketMembers(cs[..|cs| - 1], k);
      assert cs == cs[..|cs| - 1] + [cs[|cs| - 1]];
    }
  }

  /** Sorting is stable: categorizing a concatenation concatenates each category. */
  lemma {:induction false} BucketAppend(a: seq<Commit>, b: seq<Commit>, k: Category)
    ensures Bucket(a + b, k) == Bucket(a, k) + Bucket(b, k)
    decreases |b|
  {
    if b != [] {
      var init := b[..|b| - 1];
      BucketAppend(a, init, k);
      assert (a + b)[..|a + b| - 1] == a + init;
    } else {
      assert a + b == a;
    }
  }

  // ---------------------------------------------------------------------
  // formatCommit, addSection, generateReleaseNotes
  // ---------------------------------------------------------------------

  /** `formatCommit(commit)`: the scope in bold only when present. */
  function FormatCommit(c: Commit): string {
    var scopeText := if c.parsed.scope.Some? && c.parsed.scope.value != "" then "**" + c.parsed.scope.value + "**: " else "";
    "- " + scopeText + c.parsed.subject + " (" + c.hash + ")"
  }

  /** A formatted commit is a list item ending with its hash in parentheses and showing its subject. */
  lemma FormatCommitSpec(c: Commit)
    ensures IsPrefix("- ", FormatCommit(c))
    ensures var f := FormatCommit(c); var tail := " (" + c.hash + ")";
            |tail| <= |f| && f[|f| - |tail|..] == tail
    ensures Contains(FormatCommit(c), c.parsed.subject)
    ensures c.parsed.scope.Some? && c.parsed.scope.value != "" ==> Contains(FormatCommit(c), "**" + c.parsed.scope.value + "**: ")
  {
    var scopeText := if c.parsed.scope.Some? && c.parsed.scope.value != "" then "**" + c.parsed.scope.value + "**: " else "";
    var f := FormatCommit(c);
    assert f == "- " + scopeText + c.parsed.subject + (" (" + c.hash + ")");
    ContainsSelf(c.parsed.subject);
    ContainsInside("- " + scopeText, c.parsed.subject, " (" + c.hash + ")", c.parsed.subject);
    ContainsSelf(scopeText);
    ContainsInside("- ", scopeText, c.parsed.subject + " (" + c.hash + ")", scopeText);
    assert f == "- " + scopeText + (c.parsed.subject + " (" + c.hash + ")");
  }

  function FormatAll(cs: seq<Commit>): (r: seq<string>)
    ensures |r| == |cs| && forall i :: 0 <= i < |cs| ==> r[i] == FormatCommit(cs[i])
  {
    seq(|cs|, i requires 0 <= i < |cs| => FormatCommit(cs[i]))
  }

  /** `addSection(title, commits)`. */
  function AddSection(title: string, cs: seq<Commit>): string {
    if |cs| == 0 then "" else "## " + title + "\n\n" + Join(FormatAll(cs), "\n")
  }

  /** An empty category gives no section; otherwise the section starts with its heading. */
  lemma AddSectionEmpty(title: string, cs: seq<Commit>)
    ensures AddSection(title, cs) == "" <==> cs == []
    ensures cs != [] ==> IsPrefix("## " + title + "\n\n", AddSection(title, cs))
  {
    if cs != [] {
      var head := "## " + title + "\n\n";
      assert AddSection(title, cs) == head + Join(FormatAll(cs), "\n");
      assert (head + Join(FormatAll(cs), "\n"))[..|head|] == head;
    }
  }

  /** A section lists every commit of its category. */
  lemma AddSectionListsAll(title: string, cs: seq<Commit>)
    ensures forall i :: 0 <= i < |cs| ==> Contains(AddSection(title, cs), FormatCommit(cs[i]))
  {
    if cs != [] {
      var head := "## " + title + "\n\n";
      var body := Join(FormatAll(cs), "\n");
      assert AddSection(title, cs) == head + body;
      forall i | 0 <= i < |cs| ensures Contains(AddSection(title, cs), FormatCommit(cs[i])) {
        JoinContainsPart(FormatAll(cs), "\n", i);
        ContainsInside(head, body, "", FormatCommit(cs[i]));
        assert head + body + "" == head + body;
      }
    }
  }

  /** The strings that are not empty, in order (`filter(section => section !== '')`). */
  function NonEmpty(xs: seq<string>): seq<string> {
    if xs == [] then [] else (if xs[0] != "" then [xs[0]] else []) + NonEmpty(xs[1..])
  }

  /** The section titles of `generateReleaseNotes`, in their order. */
  const Titles: seq<string> := [
    "🚨 Breaking Changes", "🎉 New Features", "🐛 Bug Fixes", "⚡ Performance Improvements",
    "♻️ Refactors", "📚 Documentation", "🔧 Other Changes"]

  function Sections(cat: Categories): seq<string> {
    [AddSection(Titles[0], cat.breaking), AddSection(Titles[1], cat.feat), AddSection(Titles[2], cat.fix),
     AddSection(Titles[3], cat.perf), AddSection(Titles[4], cat.refactor), AddSection(Titles[5], cat.docs),
     AddSection(Titles[6], cat.other)]
  }

  /** `generateReleaseNotes(categories)`. */
  function GenerateReleaseNotes(cat: Categories): string {
    Join(NonEmpty(Sections(cat)), "\n\n")
  }

  lemma {:induction false} NonEmptyMembers(xs: seq<string>)
    ensures forall x :: x in NonEmpty(xs) <==> x in xs && x != ""
    ensures NonEmpty(xs) == [] <==> forall i :: 0 <= i < |xs| ==> xs[i] == ""
    ensures |xs| > 0 && xs[0] != "" ==> NonEmpty(xs)[0] == xs[0]
  {
    if xs != [] {
      NonEmptyMembers(xs[1..]);
      assert xs == [xs[0]] + xs[1..];
      assert forall i :: 1 <= i < |xs| ==> xs[i] == xs[1..][i - 1];
    }
  }

  lemma JoinNonEmpty(parts: seq<string>, sep: string)
    requires |parts| > 0
    ensures IsPrefix(parts[0], Join(parts, sep))
  {
    if |parts| > 1 {
      assert Join(parts, sep) == parts[0] + (sep + Join(parts[1..], sep));
    }
  }

  /** The notes are empty exactly when every category is. */
  lemma NotesEmptyIff(cat: Categories)
    ensures GenerateReleaseNotes(cat) == "" <==> Total(cat) == 0
  {
    var ss := Sections(cat);
    var kept := NonEmpty(ss);
    NonEmptyMembers(ss);
    SectionsEmptyIff(cat);
    if kept != [] {
      JoinNonEmpty(kept, "\n\n");
      assert kept[0] in kept;
    }
  }

  /** Every section is empty exactly when every category is. */
  lemma SectionsEmptyIff(cat: Categories)
    ensures (forall i :: 0 <= i < |Sections(cat)| ==> Sections(cat)[i] == "") <==> Total(cat) == 0
  {
    var ss := Sections(cat);
    AddSectionEmpty(Titles[0], cat.breaking);
    AddSectionEmpty(Titles[1], cat.feat);
    AddSectionEmpty(Titles[2], cat.fix);
    AddSectionEmpty(Titles[3], cat.perf);
    AddSectionEmpty(Titles[4], cat.refactor);
    AddSectionEmpty(Titles[5], cat.docs);
    AddSectionEmpty(Titles[6], cat.other);
    assert (forall i :: 0 <= i < |ss| ==> ss[i] == "") <==>
           ss[0] == "" && ss[1] == "" && ss[2] == "" && ss[3] == "" && ss[4] == "" && ss[5] == "" && ss[6] == "";
  }

  /** A non-empty breaking category is the first section of the notes. */
  lemma BreakingSectionFirst(cat: Categories)
    requires cat.breaking != []
    ensures IsPrefix("## " + Titles[0] + "\n\n", GenerateReleaseNotes(cat))
  {
    var ss := Sections(cat);
    var kept := NonEmpty(ss);
    AddSectionEmpty(Titles[0], cat.breaking);
    NonEmptyMembers(ss);
    JoinNonEmpty(kept, "\n\n");
    var h := "## " + Titles[0] + "\n\n";
    assert IsPrefix(h, kept[0]) && IsPrefix(kept[0], GenerateReleaseNotes(cat));
    assert GenerateReleaseNotes(cat)[..|h|] == kept[0][..|h|];
  }

  /** Every categorized commit is listed in the notes. */
  lemma NotesListEveryCommit(cat: Categories, k: Category, i: nat)
    requires i < |Get(cat, k)|
    ensures Contains(GenerateReleaseNotes(cat), FormatCommit(Get(cat, k)[i]))
  {
    var ss := Sections(cat);
    var kept := NonEmpty(ss);
    var j := match k
      case Breaking => 0 case Feature => 1 case Fix => 2 case Performance => 3
      case Refactor => 4 case Documentation => 5 case Other => 6;
    assert ss[j] == AddSection(Titles[j], Get(cat, k));
    AddSectionEmpty(Titles[j], Get(cat, k));
    AddSectionListsAll(Titles[j], Get(cat, k));
    NonEmptyMembers(ss);
    assert ss[j] in kept;
    var p :| 0 <= p < |kept| && kept[p] == ss[j];
    JoinContainsPart(kept, "\n\n", p);
    ContainsTrans(GenerateReleaseNotes(cat), ss[j], FormatCommit(Get(cat, k)[i]));
  }

  // ---------------------------------------------------------------------
  // main
  // ---------------------------------------------------------------------

  const InitialRelease: string := "## 🎉 Initial Release\n\nThis is the first release of the project."
  const NoChanges: string := "## Release Notes\n\nNo changes in this release."

  /**
   * What `main` prints on standard output: `arg` is the first command-line
   * argument (`""` when absent), `tagList` the output of `git tag`, and
   * `gitLog` the output of a `git log` command line.
   */
  function ReleaseOutput(arg: string, tagList: Option<string>, gitLog: string -> Option<string>): string {
    var previous := if arg != "" then Some(arg) else PreviousTag(tagList);
    if previous.None? then InitialRelease
    else
      var commits := CommitsFromLog(gitLog(LogCommand(previous.value, "HEAD")));
      if commits == [] then NoChanges
      else GenerateReleaseNotes(Categorized(commits))
  }

  /**
   * The script always prints something: the first-release note without a
   * previous tag, the no-changes note without commits, and otherwise notes
   * that list every commit of the range.
   */
  lemma ReleaseOutputSpec(arg: string, tagList: Option<string>, gitLog: string -> Option<string>)
    ensures ReleaseOutput(arg, tagList, gitLog) != ""
    ensures arg == "" && PreviousTag(tagList).None? ==> ReleaseOutput(arg, tagList, gitLog) == InitialRelease
    ensures var previous := if arg != "" then arg else PreviousTag(tagList).GetOr("");
            var commits := CommitsFromLog(gitLog(LogCommand(previous, "HEAD")));
            (arg != "" || PreviousTag(tagList).Some?) && commits != [] ==>
              forall c :: c in commits ==> Contains(ReleaseOutput(arg, tagList, gitLog), FormatCommit(c))
  {
    var previous := if arg != "" then Some(arg) else PreviousTag(tagList);
    if previous.Some? {
      var commits := CommitsFromLog(gitLog(LogCommand(previous.value, "HEAD")));
      if commits != [] {
        NotesListCommits(commits);
      }
    }
  }

  /** The notes for a non-empty range are non-empty and list every commit of it. */
  lemma NotesListCommits(commits: seq<Commit>)
    requires commits != []
    ensures GenerateReleaseNotes(Categorized(commits)) != ""
    ensures forall c :: c in commits ==> Contains(GenerateReleaseNotes(Categorized(commits)), FormatCommit(c))
  {
    var cat := Categorized(commits);
    CategorizedTotal(commits);
    NotesEmptyIff(cat);
    forall c | c in commits
      ensures Contains(GenerateReleaseNotes(cat), FormatCommit(c))
    {
      var k := CategoryOf(c);
      BucketMembers(commits, k);
      assert c in Get(cat, k);
      var i :| 0 <= i < |Get(cat, k)| && Get(cat, k)[i] == c;
      NotesListEveryCommit(cat, k, i);
    }
  }
}
