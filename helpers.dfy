/**
 * The pure helpers of src/utils/helpers.js that the hiding engine and the
 * options page use: descriptor truncation with whitespace normalisation,
 * the climb from a text node to the element to hide, the hidden test, and
 * the validation step of the import parser.
 */
module Helpers {
  import opened Types
  import opened Strings
  import opened Dom

  // ---------------------------------------------------------------------
  // truncateText
  // ---------------------------------------------------------------------

  /** `s.replace(/\s+/g, ' ')`: every maximal whitespace run becomes one space. */
  function Collapse(s: string): string
    decreases |s|
  {
    if s == [] then []
    else if IsWhitespace(s[0]) then [' '] + Collapse(TrimStart(s[1..]))
    else [s[0]] + Collapse(s[1..])
  }

  /** Two whitespace characters in a row at `i`. */
  predicate WhitespacePair(s: string, i: int)
    requires 0 <= i < |s| - 1
  {
    IsWhitespace(s[i]) && IsWhitespace(s[i + 1])
  }

  /** No whitespace other than a single space, and never two whitespace characters in a row. */
  predicate Collapsed(s: string) {
    && (forall i :: 0 <= i < |s| && IsWhitespace(s[i]) ==> s[i] == ' ')
    && (forall i :: 0 <= i < |s| - 1 ==> !WhitespacePair(s, i))
  }

  /** The normalised form of `truncateText`: single-spaced and trimmed. */
  predicate SingleSpaced(s: string) {
    Collapsed(s) && Trimmed(s)
  }

  /** The non-whitespace characters of `s`, in order. */
  function Visible(s: string): string {
    if s == [] then [] else (if IsWhitespace(s[0]) then [] else [s[0]]) + Visible(s[1..])
  }

  lemma {:induction false} VisibleAppend(a: string, b: string)
    ensures Visible(a + b) == Visible(a) + Visible(b)
  {
    if a != [] {
      assert (a + b)[1..] == a[1..] + b;
      VisibleAppend(a[1..], b);
    } else {
      assert a + b == b;
    }
  }

  lemma {:induction false} VisibleTrimStart(s: string)
    ensures Visible(TrimStart(s)) == Visible(s)
  {
    if |s| > 0 && IsWhitespace(s[0]) {
      VisibleTrimStart(s[1..]);
    }
  }

  lemma {:induction false} VisibleTrimEnd(s: string)
    ensures Visible(TrimEnd(s)) == Visible(s)
    decreases |s|
  {
    if |s| > 0 && IsWhitespace(s[|s| - 1]) {
      VisibleTrimEnd(s[..|s| - 1]);
      assert s == s[..|s| - 1] + [s[|s| - 1]];
      VisibleAppend(s[..|s| - 1], [s[|s| - 1]]);
      assert Visible([s[|s| - 1]]) == [];
    }
  }

  /** A slice of a collapsed string is collapsed. */
  lemma CollapsedSlice(s: string, a: int, b: int)
    requires Collapsed(s) && 0 <= a <= b <= |s|
    ensures Collapsed(s[a..b])
  {
    var r := s[a..b];
    forall i | 0 <= i < |r| - 1
      ensures !WhitespacePair(r, i)
    {
      assert r[i] == s[a + i] && r[i + 1] == s[a + i + 1];
      assert !WhitespacePair(s, a + i);
    }
    forall i | 0 <= i < |r|
      ensures r[i] == s[a + i]
    {
    }
  }

  /**
   * `Collapse` yields a collapsed string with the same visible characters,
   * empty exactly when its input is, and starting with whitespace exactly
   * when its input does.
   */
  lemma {:induction false} CollapseSpec(s: string)
    ensures Collapsed(Collapse(s))
    ensures Visible(Collapse(s)) == Visible(s)
    ensures Collapse(s) == [] <==> s == []
    ensures s != [] ==> (IsWhitespace(Collapse(s)[0]) <==> IsWhitespace(s[0]))
    decreases |s|
  {
    if s != [] {
      var rest := if IsWhitespace(s[0]) then TrimStart(s[1..]) else s[1..];
      CollapseSpec(rest);
      var c := Collapse(rest);
      var h := if IsWhitespace(s[0]) then ' ' else s[0];
      assert Collapse(s) == [h] + c;
      if IsWhitespace(s[0]) {
        assert rest == [] || !IsWhitespace(rest[0]);
        VisibleTrimStart(s[1..]);
      }
      ConsCollapsed(h, c);
      VisibleAppend([h], c);
      assert [h][1..] == [];
    }
  }

  /** A character in front of a collapsed string keeps it collapsed when it is a space not followed by whitespace. */
  lemma ConsCollapsed(h: char, c: string)
    requires Collapsed(c)
    requires IsWhitespace(h) ==> h == ' ' && (c == [] || !IsWhitespace(c[0]))
    ensures Collapsed([h] + c)
  {
    var r := [h] + c;
    forall i | 0 <= i < |r| - 1
      ensures !WhitespacePair(r, i)
    {
      assert r[i + 1] == c[i];
      if i > 0 {
        assert r[i] == c[i - 1];
        assert !WhitespacePair(c, i - 1);
      }
    }
    forall i | 0 < i < |r|
      ensures r[i] == c[i - 1]
    {
    }
  }

  /** A collapsed string is its own collapse. */
  lemma {:induction false} CollapseOfCollapsed(s: string)
    requires Collapsed(s)
    ensures Collapse(s) == s
    decreases |s|
  {
    if s != [] {
      CollapsedSlice(s, 1, |s|);
      assert s[1..|s|] == s[1..];
      CollapseOfCollapsed(s[1..]);
      if IsWhitespace(s[0]) {
        if |s| > 1 {
          assert !WhitespacePair(s, 0);
          assert s[1..][0] == s[1];
        }
        assert TrimStart(s[1..]) == s[1..];
      }
    }
  }

  /** `text.replace(/\s+/g, ' ').trim()`. */
  function Normalize(s: string): string {
    Trim(Collapse(s))
  }

  lemma NormalizeSingleSpaced(s: string)
    ensures SingleSpaced(Normalize(s))
  {
    var c := Collapse(s);
    CollapseSpec(s);
    TrimSpec(c);
    var a, b :| 0 <= a <= b <= |c| && Trim(c) == c[a..b];
    CollapsedSlice(c, a, b);
  }

  lemma NormalizeVisible(s: string)
    ensures Visible(Normalize(s)) == Visible(s)
  {
    var c := Collapse(s);
    CollapseSpec(s);
    VisibleTrimStart(c);
    VisibleTrimEnd(TrimStart(c));
  }

  lemma NormalizeFixes(s: string)
    requires SingleSpaced(s)
    ensures Normalize(s) == s
  {
    CollapseOfCollapsed(s);
    TrimSpec(s);
  }

  /**
   * Normalisation yields a single-spaced, trimmed string with exactly the
   * visible characters of its input, leaves such strings as they are, and is
   * therefore idempotent.
   */
  lemma NormalizeSpec(s: string)
    ensures SingleSpaced(Normalize(s))
    ensures Visible(Normalize(s)) == Visible(s)
    ensures SingleSpaced(s) ==> Normalize(s) == s
    ensures Normalize(Normalize(s)) == Normalize(s)
  {
    NormalizeSingleSpaced(s);
    NormalizeVisible(s);
    NormalizeFixes(Normalize(s));
    if SingleSpaced(s) {
      NormalizeFixes(s);
    }
  }

  /** The suffix of `truncateText`, kept as written in the source: the UTF-8 bytes of "…" read as Windows-1252. */
  const Ellipsis: string := "\U{E2}\U{20AC}\U{A6}"

  /** `truncateText(text, maxLength)`; `innerText` is never `null`, so only `""` is falsy. */
  function TruncateText(text: string, maxLength: nat): string {
    if text == "" then text
    else
      var n := Normalize(text);
      if |n| <= maxLength then n else n[..maxLength] + Ellipsis
  }

  /**
   * The empty string is returned unchanged; a normalised text that fits is
   * the result itself; a longer one is cut to `maxLength` characters and
   * the suffix is appended.  The result is empty exactly when the
   * normalised text is, so a whitespace-only text falls back to the reason.
   */
  lemma TruncateTextSpec(text: string, maxLength: nat)
    ensures text == "" ==> TruncateText(text, maxLength) == ""
    ensures |Normalize(text)| <= maxLength ==> TruncateText(text, maxLength) == Normalize(text)
    ensures |Normalize(text)| > maxLength ==>
              TruncateText(text, maxLength) == Normalize(text)[..maxLength] + Ellipsis &&
              |TruncateText(text, maxLength)| == maxLength + 3
    ensures TruncateText(text, maxLength) == "" <==> Normalize(text) == ""
    ensures |TruncateText(text, maxLength)| <= maxLength + |Ellipsis|
  {
    NormalizeSpec(text);
    if text == "" {
      assert Collapse(text) == [];
    }
  }

  // ---------------------------------------------------------------------
  // findTargetElement
  // ---------------------------------------------------------------------

  /**
   * The loop condition of `findTargetElement` together with its inner test:
   * `e` has non-empty text shorter than `maxSmall`, and a parent element
   * whose text is shorter than `maxLarge`.
   */
  predicate CanClimb(t: Tree, e: int, maxSmall: int, maxLarge: int)
    requires WellFormed(t) && 0 <= e < |t|
  {
    t[e].text != "" && |t[e].text| < maxSmall && t[e].parent >= 0 && |t[t[e].parent].text| < maxLarge
  }

  /** Climbs from `e` while `CanClimb` holds. */
  function Climb(t: Tree, e: int, maxSmall: int, maxLarge: int): (r: int)
    requires WellFormed(t) && 0 <= e < |t|
    ensures 0 <= r <= e
    decreases e
  {
    if CanClimb(t, e, maxSmall, maxLarge) then Climb(t, t[e].parent, maxSmall, maxLarge) else e
  }

  /** The result of `findTargetElement(node, maxSmall, maxLarge)`; `-1` is `null`. */
  function FindTarget(t: Tree, n: int, maxSmall: int, maxLarge: int): (r: int)
    requires WellFormed(t) && 0 <= n < |t|
    ensures -1 <= r < n
  {
    if t[n].parent < 0 then -1 else Climb(t, t[n].parent, maxSmall, maxLarge)
  }

  /**
   * The climb ends at the nearest ancestor-or-self of `e` that cannot climb:
   * it is an ancestor-or-self of `e`, it fails the condition, and every
   * element passed on the way satisfies it.
   */
  lemma {:induction false} ClimbSpec(t: Tree, e: int, maxSmall: int, maxLarge: int)
    requires WellFormed(t) && 0 <= e < |t|
    ensures AncestorOrSelf(t, Climb(t, e, maxSmall, maxLarge), e)
    ensures !CanClimb(t, Climb(t, e, maxSmall, maxLarge), maxSmall, maxLarge)
    ensures forall a :: 0 <= a < |t| && AncestorOrSelf(t, a, e) && Climb(t, e, maxSmall, maxLarge) < a ==>
              CanClimb(t, a, maxSmall, maxLarge)
    decreases e
  {
    if CanClimb(t, e, maxSmall, maxLarge) {
      var p := t[e].parent;
      ClimbSpec(t, p, maxSmall, maxLarge);
      forall a | 0 <= a < |t| && AncestorOrSelf(t, a, e) && a != e
        ensures AncestorOrSelf(t, a, p)
      {
      }
    } else {
      forall a | 0 <= a < |t| && AncestorOrSelf(t, a, e) && e < a
        ensures false
      {
        AncestorIndex(t, a, e);
      }
    }
  }

  /**
   * `findTargetElement` returns `null` exactly when the node has no parent
   * element; otherwise an element that is the parent or one of its
   * ancestors and at which the climb condition fails.
   */
  lemma FindTargetSpec(t: Tree, n: int, maxSmall: int, maxLarge: int)
    requires WellFormed(t) && 0 <= n < |t|
    ensures FindTarget(t, n, maxSmall, maxLarge) == -1 <==> t[n].parent < 0
    ensures FindTarget(t, n, maxSmall, maxLarge) >= 0 ==>
              IsElement(t, FindTarget(t, n, maxSmall, maxLarge)) &&
              AncestorOrSelf(t, FindTarget(t, n, maxSmall, maxLarge), t[n].parent) &&
              !CanClimb(t, FindTarget(t, n, maxSmall, maxLarge), maxSmall, maxLarge)
  {
    if t[n].parent >= 0 {
      var p := t[n].parent;
      ClimbSpec(t, p, maxSmall, maxLarge);
      var r := Climb(t, p, maxSmall, maxLarge);
      if r != p {
        AncestorIndex(t, r, p);
        IsElementAncestor(t, r, p);
      }
    }
  }

  /** Every ancestor of a node is an element. */
  lemma {:induction false} IsElementAncestor(t: Tree, a: int, e: int)
    requires WellFormed(t) && 0 <= e < |t| && AncestorOrSelf(t, a, e) && a != e
    ensures IsElement(t, a)
    decreases e
  {
    if a != t[e].parent {
      IsElementAncestor(t, a, t[e].parent);
    }
  }

  /** `findTargetElement` as written: a `while` loop that reassigns `target` and may `break`. */
  method FindTargetElement(t: Tree, n: int, maxSmall: int, maxLarge: int) returns (target: int)
    requires WellFormed(t) && 0 <= n < |t|
    ensures target == FindTarget(t, n, maxSmall, maxLarge)
  {
    target := t[n].parent;
    if target < 0 {
      return -1;
    }
    ghost var start := target;
    while t[target].text != "" && |t[target].text| < maxSmall
      invariant 0 <= target < |t|
      invariant Climb(t, target, maxSmall, maxLarge) == Climb(t, start, maxSmall, maxLarge)
      decreases target
    {
      var p := t[target].parent;
      if p >= 0 && |t[p].text| < maxLarge {
        target := p;
      } else {
        break;
      }
    }
  }

  // ---------------------------------------------------------------------
  // isElementHidden
  // ---------------------------------------------------------------------

  /** `isElementHidden(el)`: inline `display: none`, or the `data-privacy-hidden` attribute. */
  predicate IsElementHidden(displayNone: seq<bool>, marker: seq<bool>, e: int)
    requires 0 <= e < |displayNone| && 0 <= e < |marker|
  {
    displayNone[e] || marker[e]
  }

  // ---------------------------------------------------------------------
  // parseImportData
  // ---------------------------------------------------------------------

  /**
   * The value `JSON.parse` produced, classified the way the validation step
   * looks at it; an object keeps the two fields the import reads.
   */
  datatype Parsed = PNull | PArray | PScalar | PObject(data: ImportData)

  /**
   * `parseImportData(jsonText)` after `JSON.parse`: `parsed` is `None` when
   * parsing threw.  Only a non-null, non-array object is accepted.
   */
  function ParseImportData(parsed: Option<Parsed>): (r: Option<ImportData>)
    ensures r.Some? <==> parsed.Some? && parsed.value.PObject?
    ensures r.Some? ==> r.value == parsed.value.data
  {
    match parsed
    case None => None
    case Some(PObject(d)) => Some(d)
    case Some(_) => None
  }
}
