/**
 * String primitives that the JavaScript sources use through the built-in
 * `String` methods: `includes`, `trim`, `split`, `join`, `toLowerCase`, and
 * the `\s` class of regular expressions.  JavaScript strings are modelled as
 * `seq<char>`, one `char` per code unit.
 */
module Strings {

  /** `p` is a prefix of `s` (`s.startsWith(p)`). */
  predicate IsPrefix(p: string, s: string) {
    |p| <= |s| && s[..|p|] == p
  }

  /** `sub` occurs in `s` starting at index `i`. */
  predicate OccursAt(s: string, sub: string, i: int) {
    0 <= i && i + |sub| <= |s| && s[i..i + |sub|] == sub
  }

  /** `s.includes(sub)`: a leftmost scan for an occurrence of `sub`. */
  function Contains(s: string, sub: string): bool
    decreases |s|
  {
    IsPrefix(sub, s) || (|s| > 0 && Contains(s[1..], sub))
  }

  /** `Contains` holds exactly when `sub` occurs somewhere in `s`. */
  lemma {:induction false} ContainsIff(s: string, sub: string)
    ensures Contains(s, sub) <==> exists i :: OccursAt(s, sub, i)
    decreases |s|
  {
    if IsPrefix(sub, s) {
      assert OccursAt(s, sub, 0);
    } else if |s| > 0 {
      ContainsIff(s[1..], sub);
      if Contains(s[1..], sub) {
        var i :| OccursAt(s[1..], sub, i);
        assert s[1..][i..i + |sub|] == s[i + 1..i + 1 + |sub|];
        assert OccursAt(s, sub, i + 1);
      } else {
        forall i | 0 < i && OccursAt(s, sub, i) ensures OccursAt(s[1..], sub, i - 1) {
          assert s[1..][i - 1..i - 1 + |sub|] == s[i..i + |sub|];
        }
        assert !OccursAt(s, sub, 0) by {
          assert |sub| <= |s| ==> s[..|sub|] == s[0..|sub|];
        }
        assert forall i :: !OccursAt(s, sub, i);
      }
    } else {
      assert |sub| > 0 by {
        assert IsPrefix([], s);
      }
      assert forall i :: !OccursAt(s, sub, i);
    }
  }

  /** Every string contains itself. */
  lemma ContainsSelf(s: string)
    ensures Contains(s, s)
  {
    assert IsPrefix(s, s);
  }

  /** A single occurrence is enough for `Contains`. */
  lemma ContainsAt(s: string, sub: string, i: int)
    requires OccursAt(s, sub, i)
    ensures Contains(s, sub)
  {
    ContainsIff(s, sub);
  }

  /** Every character of a contained pattern is a character of the string. */
  lemma CharsOfContained(s: string, sub: string, c: char)
    ensures Contains(s, sub) && c in sub ==> c in s
  {
    ContainsIff(s, sub);
    if Contains(s, sub) && c in sub {
      var i :| OccursAt(s, sub, i);
      var k :| 0 <= k < |sub| && sub[k] == c;
      assert s[i..i + |sub|][k] == s[i + k];
    }
  }

  /** `Contains` is preserved by wrapping the string on both sides. */
  lemma ContainsInside(a: string, s: string, b: string, sub: string)
    requires Contains(s, sub)
    ensures Contains(a + s + b, sub)
  {
    ContainsIff(s, sub);
    var i :| OccursAt(s, sub, i);
    assert (a + s + b)[|a| + i..|a| + i + |sub|] == s[i..i + |sub|];
    ContainsAt(a + s + b, sub, |a| + i);
  }

  /** `patterns.some(p => s.includes(p))`. */
  predicate SomeContained(patterns: seq<string>, s: string) {
    |patterns| > 0 && (Contains(s, patterns[0]) || SomeContained(patterns[1..], s))
  }

  /** `SomeContained` is an existential over the patterns. */
  lemma {:induction false} SomeContainedIff(patterns: seq<string>, s: string)
    ensures SomeContained(patterns, s) <==> exists i :: 0 <= i < |patterns| && Contains(s, patterns[i])
  {
    if |patterns| > 0 {
      SomeContainedIff(patterns[1..], s);
      if exists i :: 0 <= i < |patterns| && Contains(s, patterns[i]) {
        var i :| 0 <= i < |patterns| && Contains(s, patterns[i]);
        if i > 0 {
          assert patterns[1..][i - 1] == patterns[i];
        }
      }
    }
  }

  /** `SomeContained` over a concatenation is the disjunction over the parts. */
  lemma {:induction false} SomeContainedAppend(a: seq<string>, b: seq<string>, s: string)
    ensures SomeContained(a + b, s) <==> SomeContained(a, s) || SomeContained(b, s)
  {
    if |a| > 0 {
      assert (a + b)[1..] == a[1..] + b;
      SomeContainedAppend(a[1..], b, s);
    } else {
      assert a + b == b;
    }
  }

  /** ECMAScript WhiteSpace and LineTerminator code units: the `\s` class and what `trim` removes. */
  predicate IsWhitespace(c: char) {
    c == '\t' || c == '\n' || c == '\U{B}' || c == '\U{C}' || c == '\r' || c == ' ' ||
    c == '\U{A0}' || c == '\U{1680}' || ('\U{2000}' <= c <= '\U{200A}') ||
    c == '\U{2028}' || c == '\U{2029}' || c == '\U{202F}' || c == '\U{205F}' ||
    c == '\U{3000}' || c == '\U{FEFF}'
  }

  /** ECMAScript LineTerminator code units: what `.` does not match and where `^` matches in multiline mode. */
  predicate IsLineTerminator(c: char) {
    c == '\n' || c == '\r' || c == '\U{2028}' || c == '\U{2029}'
  }

  /** Drops the leading whitespace (`trimStart`). */
  function TrimStart(s: string): (r: string)
    ensures |r| <= |s| && r == s[|s| - |r|..]
    ensures r == [] || !IsWhitespace(r[0])
  {
    if |s| > 0 && IsWhitespace(s[0]) then TrimStart(s[1..]) else s
  }

  /** Drops the trailing whitespace (`trimEnd`). */
  function TrimEnd(s: string): (r: string)
    ensures |r| <= |s| && r == s[..|r|]
    ensures r == [] || !IsWhitespace(r[|r| - 1])
  {
    if |s| > 0 && IsWhitespace(s[|s| - 1]) then TrimEnd(s[..|s| - 1]) else s
  }

  /** `s.trim()`. */
  function Trim(s: string): string {
    TrimEnd(TrimStart(s))
  }

  /** Neither end of `s` is whitespace. */
  predicate Trimmed(s: string) {
    s == [] || (!IsWhitespace(s[0]) && !IsWhitespace(s[|s| - 1]))
  }

  /** `Trim` yields a trimmed slice of its input, and leaves a trimmed string as it is. */
  lemma TrimSpec(s: string)
    ensures Trimmed(Trim(s))
    ensures exists a, b :: 0 <= a <= b <= |s| && Trim(s) == s[a..b]
    ensures Trimmed(s) ==> Trim(s) == s
  {
    var t := TrimStart(s);
    var r := TrimEnd(t);
    var a := |s| - |t|;
    assert r == s[a..a + |r|] by {
      assert t == s[a..] && r == t[..|r|];
    }
    TrimEndKeepsStart(t);
    if Trimmed(s) && s != [] {
      assert t == s;
    }
  }

  /** Trimming the end of a string whose first character is not whitespace keeps that character first. */
  lemma TrimEndKeepsStart(t: string)
    requires t == [] || !IsWhitespace(t[0])
    ensures TrimEnd(t) == [] || TrimEnd(t)[0] == t[0]
  {
    var r := TrimEnd(t);
    if r != [] {
      assert r == t[..|r|];
    }
  }

  /** An ASCII-only model of `toLowerCase`. */
  function LowerChar(c: char): char {
    if 'A' <= c <= 'Z' then (c as int + 32) as char else c
  }

  /** `s.toLowerCase()`, ASCII letters only. */
  function Lower(s: string): (r: string)
    ensures |r| == |s| && forall i :: 0 <= i < |s| ==> r[i] == LowerChar(s[i])
  {
    seq(|s|, i requires 0 <= i < |s| => LowerChar(s[i]))
  }

  /** Lower-casing commutes with taking a slice. */
  lemma LowerSlice(s: string, a: int, b: int)
    requires 0 <= a <= b <= |s|
    ensures Lower(s)[a..b] == Lower(s[a..b])
  {
  }

  /** Index of the leftmost occurrence of a non-empty `sep` in `s`, if any. */
  function IndexOf(s: string, sep: string): (r: int)
    requires |sep| > 0
    ensures -1 <= r <= |s| - |sep| || r == -1
    ensures r >= 0 ==> OccursAt(s, sep, r) && forall j :: 0 <= j < r ==> !OccursAt(s, sep, j)
    ensures r == -1 ==> forall j :: !OccursAt(s, sep, j)
    decreases |s|
  {
    if |s| < |sep| then
      assert forall j :: !OccursAt(s, sep, j);
      -1
    else if s[..|sep|] == sep then 0
    else
      var k := IndexOf(s[1..], sep);
      OccursShift(s, sep);
      if k < 0 then -1 else k + 1
  }

  /** An occurrence past the first character is an occurrence in the tail, one place earlier. */
  lemma OccursShift(s: string, sub: string)
    requires |s| > 0
    ensures forall j :: 0 < j ==> (OccursAt(s, sub, j) <==> OccursAt(s[1..], sub, j - 1))
  {
    forall j | 0 < j
      ensures OccursAt(s, sub, j) <==> OccursAt(s[1..], sub, j - 1)
    {
      if j + |sub| <= |s| {
        assert s[1..][j - 1..j - 1 + |sub|] == s[j..j + |sub|];
      }
    }
  }

  /** `s.split(sep)` for a non-empty string separator. */
  function Split(s: string, sep: string): (parts: seq<string>)
    requires |sep| > 0
    ensures |parts| > 0
    decreases |s|
  {
    var i := IndexOf(s, sep);
    if i < 0 then [s] else [s[..i]] + Split(s[i + |sep|..], sep)
  }

  /** `parts.join(sep)`. */
  function Join(parts: seq<string>, sep: string): string {
    if |parts| == 0 then ""
    else if |parts| == 1 then parts[0]
    else parts[0] + sep + Join(parts[1..], sep)
  }

  /** Joining the pieces of a split with the same separator gives the string back. */
  lemma {:induction false} JoinSplit(s: string, sep: string)
    requires |sep| > 0
    ensures Join(Split(s, sep), sep) == s
    decreases |s|
  {
    var i := IndexOf(s, sep);
    if i >= 0 {
      var rest := s[i + |sep|..];
      var tail := Split(rest, sep);
      JoinSplit(rest, sep);
      JoinCons(s[..i], tail, sep);
      assert s == s[..i] + sep + rest by {
        assert s[i..i + |sep|] == sep;
        assert s == s[..i] + s[i..i + |sep|] + rest;
      }
    }
  }

  lemma JoinCons(head: string, tail: seq<string>, sep: string)
    requires |tail| > 0
    ensures Join([head] + tail, sep) == head + sep + Join(tail, sep)
  {
    assert ([head] + tail)[1..] == tail;
  }

  /** A string without the separator character is split into itself. */
  lemma SplitWithout(s: string, c: char)
    requires c !in s
    ensures Split(s, [c]) == [s]
  {
    forall j | 0 <= j < |s| ensures !OccursAt(s, [c], j) {
      assert s[j..j + 1] == [s[j]];
    }
  }

  /** Splitting on a character at its first occurrence. */
  lemma SplitCons(a: string, c: char, r: string)
    requires c !in a
    ensures Split(a + [c] + r, [c]) == [a] + Split(r, [c])
  {
    var s := a + [c] + r;
    assert OccursAt(s, [c], |a|) by {
      assert s[|a|..|a| + 1] == [c];
    }
    forall j | 0 <= j < |a| ensures !OccursAt(s, [c], j) {
      assert s[j..j + 1] == [a[j]];
    }
    assert IndexOf(s, [c]) == |a|;
    assert s[..|a|] == a && s[|a| + 1..] == r;
  }

  /** No piece of a split contains the separator. */
  lemma {:induction false} SplitPiecesAvoidSeparator(s: string, sep: string)
    requires |sep| > 0
    ensures forall k :: 0 <= k < |Split(s, sep)| ==> !Contains(Split(s, sep)[k], sep)
    decreases |s|
  {
    var i := IndexOf(s, sep);
    if i < 0 {
      ContainsIff(s, sep);
    } else {
      var rest := s[i + |sep|..];
      SplitPiecesAvoidSeparator(rest, sep);
      FirstPieceAvoids(s, sep);
      var parts := Split(s, sep);
      var tail := Split(rest, sep);
      assert parts == [s[..i]] + tail;
      forall k | 0 <= k < |parts| ensures !Contains(parts[k], sep) {
        if k > 0 {
          assert parts[k] == tail[k - 1];
        }
      }
    }
  }

  /** The text before the first occurrence of the separator does not contain it. */
  lemma FirstPieceAvoids(s: string, sep: string)
    requires |sep| > 0 && IndexOf(s, sep) >= 0
    ensures !Contains(s[..IndexOf(s, sep)], sep)
  {
    var i := IndexOf(s, sep);
    OccursInPrefix(s, sep, i);
    ContainsIff(s[..i], sep);
  }

  /** An occurrence inside a prefix is an occurrence in the whole string. */
  lemma OccursInPrefix(s: string, sub: string, n: int)
    requires 0 <= n <= |s|
    ensures forall j :: OccursAt(s[..n], sub, j) ==> OccursAt(s, sub, j)
  {
    forall j | OccursAt(s[..n], sub, j) ensures OccursAt(s, sub, j) {
      assert s[..n][j..j + |sub|] == s[j..j + |sub|];
    }
  }

  /** A joined piece appears inside the joined string. */
  lemma {:induction false} JoinContainsPart(parts: seq<string>, sep: string, k: int)
    requires 0 <= k < |parts|
    ensures Contains(Join(parts, sep), parts[k])
  {
    if |parts| == 1 {
      ContainsSelf(parts[0]);
    } else {
      var rest := Join(parts[1..], sep);
      assert Join(parts, sep) == parts[0] + (sep + rest);
      if k == 0 {
        ContainsStart(parts[0], sep + rest);
      } else {
        JoinContainsPart(parts[1..], sep, k - 1);
        ContainsEnd(parts[0] + sep, rest, parts[k]);
        assert parts[0] + sep + rest == parts[0] + (sep + rest);
      }
    }
  }

  lemma ContainsStart(s: string, b: string)
    ensures Contains(s + b, s)
  {
    ContainsSelf(s);
    ContainsInside("", s, b, s);
    assert "" + s + b == s + b;
  }

  lemma ContainsEnd(a: string, s: string, sub: string)
    requires Contains(s, sub)
    ensures Contains(a + s, sub)
  {
    ContainsInside(a, s, "", sub);
    assert a + s + "" == a + s;
  }

  /** `Contains` is transitive. */
  lemma ContainsTrans(s: string, mid: string, sub: string)
    requires Contains(s, mid) && Contains(mid, sub)
    ensures Contains(s, sub)
  {
    ContainsIff(s, mid);
    ContainsIff(mid, sub);
    var i :| OccursAt(s, mid, i);
    var j :| OccursAt(mid, sub, j);
    assert s[i + j..i + j + |sub|] == sub by {
      forall t | 0 <= t < |sub| ensures s[i + j + t] == sub[t] {
        assert mid[j + t] == sub[t];
        assert s[i..i + |mid|][j + t] == s[i + (j + t)];
      }
    }
    ContainsAt(s, sub, i + j);
  }
}
