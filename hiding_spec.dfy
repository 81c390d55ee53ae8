/**
 * The hiding engine of src/content/content.js as functions of the page state:
 * one `hideElement`, the collect-then-apply walks of the three matchers, the
 * guards of `runHidingLogic`, `unhideAll`, and the storage-change handler.
 * The class in `Content` is proved to compute exactly these functions.
 *
 * External engines are oracles: `query(selector)` is the `querySelectorAll`
 * result in document order (`None` when the selector is invalid and the call
 * throws), `compiles(pattern)` says whether `new RegExp(pattern)` succeeds,
 * and `matches(pattern, text)` is `regex.test(text)`.
 */
module HidingSpec {
  import opened Types
  import opened Strings
  import opened Dom
  import opened Helpers
  import opened Constants
  import Rules

  /**
   * What a pass changes: the inline `display: none` and the
   * `data-privacy-hidden` attribute of each node, and `hiddenItemsSet` in
   * insertion order (the order `Array.from` lists it).
   */
  datatype Page = Page(displayNone: seq<bool>, marker: seq<bool>, items: seq<string>)

  datatype Engines = Engines(
    query: string -> Option<seq<int>>,
    compiles: string -> bool,
    matches: (string, string) -> bool)

  /** An element and the reason string passed to `hideElement` with it. */
  type Target = (int, string)

  predicate Fits(t: Tree, p: Page) {
    |p.displayNone| == |t| && |p.marker| == |t|
  }

  predicate Hidden(p: Page, e: int)
    requires 0 <= e < |p.displayNone| && 0 <= e < |p.marker|
  {
    IsElementHidden(p.displayNone, p.marker, e)
  }

  predicate NoDup(s: seq<string>) {
    forall i, j :: 0 <= i < j < |s| ==> s[i] != s[j]
  }

  /** A marked element is hidden, and the descriptor set holds no descriptor twice. */
  predicate Consistent(t: Tree, p: Page) {
    Fits(t, p) && (forall i :: 0 <= i < |t| && p.marker[i] ==> p.displayNone[i]) && NoDup(p.items)
  }

  /** `q` extends `p`: the descriptor list is a prefix, and no flag was cleared. */
  predicate Grows(t: Tree, p: Page, q: Page)
    requires Fits(t, p) && Fits(t, q)
  {
    |p.items| <= |q.items| && q.items[..|p.items|] == p.items &&
    forall i :: 0 <= i < |t| ==> (p.displayNone[i] ==> q.displayNone[i]) && (p.marker[i] ==> q.marker[i])
  }

  lemma GrowsTrans(t: Tree, p: Page, q: Page, r: Page)
    requires Fits(t, p) && Fits(t, q) && Fits(t, r) && Grows(t, p, q) && Grows(t, q, r)
    ensures Grows(t, p, r)
  {
    assert r.items[..|p.items|] == r.items[..|q.items|][..|p.items|];
  }

  predicate TargetsIn(t: Tree, ts: seq<Target>) {
    forall k :: 0 <= k < |ts| ==> 0 <= ts[k].0 < |t|
  }

  lemma TargetsInAppend(t: Tree, a: seq<Target>, b: seq<Target>)
    requires TargetsIn(t, a) && TargetsIn(t, b)
    ensures TargetsIn(t, a + b)
  {
    forall k | 0 <= k < |a + b| ensures 0 <= (a + b)[k].0 < |t| {
      if k < |a| {
        assert (a + b)[k] == a[k];
      } else {
        assert (a + b)[k] == b[k - |a|];
      }
    }
  }

  // ---------------------------------------------------------------------
  // hideElement
  // ---------------------------------------------------------------------

  /** `truncateText(el.innerText) || reason || 'Hidden Item'`. */
  function Descriptor(t: Tree, e: int, reason: string): string
    requires 0 <= e < |t|
  {
    var d := TruncateText(t[e].text, PreviewTextLength);
    if d != "" then d else if reason != "" then reason else "Hidden Item"
  }

  /** The descriptor is never empty; it is the truncated text unless that text is blank. */
  lemma DescriptorSpec(t: Tree, e: int, reason: string)
    requires 0 <= e < |t|
    ensures Descriptor(t, e, reason) != ""
    ensures Normalize(t[e].text) != "" ==> Descriptor(t, e, reason) == TruncateText(t[e].text, PreviewTextLength)
    ensures Normalize(t[e].text) == "" && reason != "" ==> Descriptor(t, e, reason) == reason
    ensures |Descriptor(t, e, reason)| <= PreviewTextLength + |Ellipsis| || Descriptor(t, e, reason) == reason
  {
    TruncateTextSpec(t[e].text, PreviewTextLength);
  }

  /** `hideElement(el, reason)`: the new page and whether the descriptor was new. */
  function Hide(t: Tree, p: Page, e: int, reason: string): (Page, bool)
    requires Fits(t, p) && 0 <= e < |t|
  {
    if Hidden(p, e) then (p, false)
    else
      var d := Descriptor(t, e, reason);
      var q := Page(p.displayNone[e := true], p.marker[e := true], p.items);
      if d in p.items then (q, false) else (q.(items := p.items + [d]), true)
  }

  /**
   * An element that is already hidden is left alone and reports `false`.
   * Otherwise it gets both flags, nothing else changes, the descriptor set
   * grows by at most its descriptor, and the result is `true` exactly when
   * that descriptor was not yet present.
   */
  lemma HideSpec(t: Tree, p: Page, e: int, reason: string)
    requires Fits(t, p) && 0 <= e < |t|
    ensures Hidden(p, e) ==> Hide(t, p, e, reason) == (p, false)
    ensures !Hidden(p, e) ==>
              var r := Hide(t, p, e, reason);
              var d := Descriptor(t, e, reason);
              r.0.displayNone == p.displayNone[e := true] && r.0.marker == p.marker[e := true] &&
              (r.1 <==> d !in p.items) &&
              r.0.items == (if d in p.items then p.items else p.items + [d])
    ensures Fits(t, Hide(t, p, e, reason).0) && Grows(t, p, Hide(t, p, e, reason).0)
    ensures Hidden(Hide(t, p, e, reason).0, e)
    ensures Consistent(t, p) ==> Consistent(t, Hide(t, p, e, reason).0)
  {
    var r := Hide(t, p, e, reason);
    assert r.0.items[..|p.items|] == p.items;
  }

  /**
   * Two distinct unhidden elements with the same text, and so the same
   * descriptor, are both hidden, but only the first call adds to the set
   * and reports `true`.
   */
  lemma SameDescriptorCountsOnce(t: Tree, p: Page, e1: int, e2: int, reason: string)
    requires Fits(t, p) && 0 <= e1 < |t| && 0 <= e2 < |t| && e1 != e2
    requires !Hidden(p, e1) && !Hidden(p, e2)
    requires t[e1].text == t[e2].text && Descriptor(t, e1, reason) !in p.items
    ensures var r1 := Hide(t, p, e1, reason);
            var r2 := Hide(t, r1.0, e2, reason);
            r1.1 && !r2.1 && Hidden(r2.0, e1) && Hidden(r2.0, e2) && r2.0.marker[e1] && r2.0.marker[e2] &&
            r2.0.items == p.items + [Descriptor(t, e1, reason)]
  {
    var r1 := Hide(t, p, e1, reason);
    assert Descriptor(t, e1, reason) == Descriptor(t, e2, reason);
    HideSpec(t, p, e1, reason);
    assert !Hidden(r1.0, e2);
    HideSpec(t, r1.0, e2, reason);
  }

  // ---------------------------------------------------------------------
  // Applying a list of hides
  // ---------------------------------------------------------------------

  /** `hideElement` applied to each target in order; the result is `true` if any call returned `true`. */
  function HideAll(t: Tree, p: Page, ts: seq<Target>): (r: (Page, bool))
    requires Fits(t, p) && TargetsIn(t, ts)
    ensures Fits(t, r.0)
    decreases |ts|
  {
    if ts == [] then (p, false)
    else
      var last := ts[|ts| - 1];
      var q := HideAll(t, p, ts[..|ts| - 1]);
      HideSpec(t, q.0, last.0, last.1);
      var h := Hide(t, q.0, last.0, last.1);
      (h.0, q.1 || h.1)
  }

  /** Hiding one more target of a list: the step of the loops that hide targets in order. */
  lemma HideAllSnoc(t: Tree, p: Page, ts: seq<Target>, k: int)
    requires Fits(t, p) && TargetsIn(t, ts) && 0 <= k < |ts|
    ensures TargetsIn(t, ts[..k]) && TargetsIn(t, ts[..k + 1]) && 0 <= ts[k].0 < |t|
    ensures var q := HideAll(t, p, ts[..k]);
            var h := Hide(t, q.0, ts[k].0, ts[k].1);
            HideAll(t, p, ts[..k + 1]) == (h.0, q.1 || h.1)
  {
    assert ts[..k + 1][..k] == ts[..k];
  }

  /**
   * A list of hides only adds: every target ends hidden, elements that are
   * no target keep both flags, the set gains at most one descriptor per
   * target, and the result is `true` exactly when the set grew.  A newly
   * marked element implies a non-empty set.
   */
  lemma {:induction false} HideAllSpec(t: Tree, p: Page, ts: seq<Target>)
    requires Fits(t, p) && TargetsIn(t, ts)
    ensures var r := HideAll(t, p, ts);
            && Grows(t, p, r.0)
            && (r.1 <==> |r.0.items| > |p.items|)
            && |r.0.items| <= |p.items| + |ts|
            && (forall k :: 0 <= k < |ts| ==> Hidden(r.0, ts[k].0))
            && (forall i :: 0 <= i < |t| && r.0.marker[i] && !p.marker[i] ==> |r.0.items| > 0)
            && (forall i :: 0 <= i < |t| && (forall k :: 0 <= k < |ts| ==> ts[k].0 != i) ==>
                  r.0.displayNone[i] == p.displayNone[i] && r.0.marker[i] == p.marker[i])
    ensures Consistent(t, p) ==> Consistent(t, HideAll(t, p, ts).0)
    decreases |ts|
  {
    if ts != [] {
      var init := ts[..|ts| - 1];
      var last := ts[|ts| - 1];
      HideAllSpec(t, p, init);
      var q := HideAll(t, p, init);
      HideSpec(t, q.0, last.0, last.1);
      var h := Hide(t, q.0, last.0, last.1);
      GrowsTrans(t, p, q.0, h.0);
      forall k | 0 <= k < |ts|
        ensures Hidden(h.0, ts[k].0)
      {
        if k < |ts| - 1 {
          assert ts[k] == init[k];
          assert Hidden(q.0, init[k].0);
        }
      }
      forall i | 0 <= i < |t| && (forall k :: 0 <= k < |ts| ==> ts[k].0 != i)
        ensures h.0.displayNone[i] == p.displayNone[i] && h.0.marker[i] == p.marker[i]
      {
        assert forall k :: 0 <= k < |init| ==> init[k] == ts[k];
        assert ts[|ts| - 1].0 != i;
      }
      forall i | 0 <= i < |t| && h.0.marker[i] && !p.marker[i]
        ensures |h.0.items| > 0
      {
        if q.0.marker[i] {
          assert |q.0.items| > 0;
        } else {
          assert !Hidden(q.0, last.0);
        }
      }
    }
  }

  /** When every target is already hidden, the hides change nothing and report `false`. */
  lemma {:induction false} HideAllNoop(t: Tree, p: Page, ts: seq<Target>)
    requires Fits(t, p) && TargetsIn(t, ts)
    requires forall k :: 0 <= k < |ts| ==> Hidden(p, ts[k].0)
    ensures HideAll(t, p, ts) == (p, false)
    decreases |ts|
  {
    if ts != [] {
      var init := ts[..|ts| - 1];
      assert forall k :: 0 <= k < |init| ==> init[k] == ts[k];
      HideAllNoop(t, p, init);
    }
  }

  /** Hiding the targets of `a + b` is hiding those of `a` and then those of `b`. */
  lemma {:induction false} HideAllAppend(t: Tree, p: Page, a: seq<Target>, b: seq<Target>)
    requires Fits(t, p) && TargetsIn(t, a) && TargetsIn(t, b)
    ensures TargetsIn(t, a + b)
    ensures var ra := HideAll(t, p, a);
            var rb := HideAll(t, ra.0, b);
            HideAll(t, p, a + b) == (rb.0, ra.1 || rb.1)
    decreases |b|
  {
    assert forall k :: 0 <= k < |a + b| ==> (a + b)[k] == if k < |a| then a[k] else b[k - |a|];
    if b == [] {
      assert a + b == a;
    } else {
      var b' := b[..|b| - 1];
      assert (a + b)[..|a + b| - 1] == a + b';
      assert forall k :: 0 <= k < |b'| ==> b'[k] == b[k];
      HideAllAppend(t, p, a, b');
    }
  }

  // ---------------------------------------------------------------------
  // hideBySelectors
  // ---------------------------------------------------------------------

  /** Every selector match is an element of the tree. */
  ghost predicate QueryValid(t: Tree, query: string -> Option<seq<int>>) {
    forall s, k :: query(s).Some? && 0 <= k < |query(s).value| ==> IsElement(t, query(s).value[k])
  }

  /** The targets one selector yields: each match, or its `contentinfo` landmark. */
  function SelectorMatches(t: Tree, query: string -> Option<seq<int>>, selector: string): (ts: seq<Target>)
    requires WellFormed(t) && QueryValid(t, query)
    ensures TargetsIn(t, ts)
    ensures query(selector).None? ==> ts == []
    ensures query(selector).Some? ==>
              |ts| == |query(selector).value| &&
              forall k :: 0 <= k < |ts| ==>
                ts[k] == (SelectorTarget(t, query(selector).value[k]), "Selector: " + selector)
  {
    match query(selector)
    case None => []
    case Some(els) =>
      seq(|els|, k requires 0 <= k < |els| => (SelectorTarget(t, els[k]), "Selector: " + selector))
  }

  /** The targets of all selectors, in selector order. */
  function SelectorTargets(t: Tree, query: string -> Option<seq<int>>, selectors: seq<string>): (ts: seq<Target>)
    requires WellFormed(t) && QueryValid(t, query)
    ensures TargetsIn(t, ts)
    decreases |selectors|
  {
    if selectors == [] then []
    else
      var a := SelectorTargets(t, query, selectors[..|selectors| - 1]);
      var b := SelectorMatches(t, query, selectors[|selectors| - 1]);
      TargetsInAppend(t, a, b);
      a + b
  }

  // ---------------------------------------------------------------------
  // The text-node walk of hideByKeywords and hideByPatterns
  // ---------------------------------------------------------------------

  /** `text.includes(keyword)`, the test of `hideByKeywords`. */
  predicate KeywordTest(keyword: string, text: string) {
    Contains(text, keyword)
  }

  /** The inner `for` loop from rule `j` on: the first rule that `text && m(rule, text)` accepts. */
  function MatchFrom(rules: seq<string>, m: (string, string) -> bool, text: string, j: nat): (r: int)
    requires j <= |rules|
    ensures r == -1 || j <= r < |rules|
    ensures r >= 0 ==> text != "" && m(rules[r], text) && forall i :: j <= i < r ==> !m(rules[i], text)
    ensures r == -1 ==> text == "" || forall i :: j <= i < |rules| ==> !m(rules[i], text)
    decreases |rules| - j
  {
    if j == |rules| then -1
    else if text != "" && m(rules[j], text) then j
    else MatchFrom(rules, m, text, j + 1)
  }

  /** The index of the first rule that matches `text`, or `-1`. */
  function MatchIndex(rules: seq<string>, m: (string, string) -> bool, text: string): int {
    MatchFrom(rules, m, text, 0)
  }

  /**
   * The element the walk would pick for node `i`, whatever is marked: the
   * climb target of a text node inside `document.body` (the walker's root)
   * that some rule matches, or `-1`.
   */
  function Candidate(t: Tree, rules: seq<string>, m: (string, string) -> bool, i: int): (e: int)
    requires WellFormed(t) && 0 <= i < |t|
    ensures -1 <= e < |t|
  {
    if t[i].isText && UnderBody(t, i) && MatchIndex(rules, m, t[i].text) >= 0
    then FindTarget(t, i, MaxTextLengthSmall, MaxTextLengthLarge)
    else -1
  }

  /**
   * What the walk pushes onto `nodesToHide` for node `i`: nothing for an
   * element, a text outside the body or an unmatched text, else the first matching rule's target,
   * unless there is none or it is already marked.
   */
  function WalkItem(t: Tree, marker: seq<bool>, rules: seq<string>, m: (string, string) -> bool,
                    prefix: string, i: int): seq<Target>
    requires WellFormed(t) && |marker| == |t| && 0 <= i < |t|
  {
    var e := Candidate(t, rules, m, i);
    if e >= 0 && !marker[e] then [(e, prefix + rules[MatchIndex(rules, m, t[i].text)])] else []
  }

  /** `nodesToHide` after the tree walker has visited the first `n` nodes. */
  function Walk(t: Tree, marker: seq<bool>, rules: seq<string>, m: (string, string) -> bool,
                prefix: string, n: nat): (ts: seq<Target>)
    requires WellFormed(t) && |marker| == |t| && n <= |t|
    ensures TargetsIn(t, ts)
  {
    if n == 0 then []
    else
      var a := Walk(t, marker, rules, m, prefix, n - 1);
      var b := WalkItem(t, marker, rules, m, prefix, n - 1);
      TargetsInAppend(t, a, b);
      a + b
  }

  /**
   * A text node yields at most one target, for the first rule in list order
   * that matches it, and only when that target exists and is unmarked.
   */
  lemma FirstRuleWins(t: Tree, marker: seq<bool>, rules: seq<string>, m: (string, string) -> bool,
                      prefix: string, i: int)
    requires WellFormed(t) && |marker| == |t| && 0 <= i < |t|
    ensures var w := WalkItem(t, marker, rules, m, prefix, i);
            |w| <= 1 &&
            (|w| == 1 <==> t[i].isText && UnderBody(t, i) && t[i].text != "" && (exists j :: 0 <= j < |rules| && m(rules[j], t[i].text)) &&
                           FindTarget(t, i, MaxTextLengthSmall, MaxTextLengthLarge) >= 0 &&
                           !marker[FindTarget(t, i, MaxTextLengthSmall, MaxTextLengthLarge)]) &&
            (|w| == 1 ==> exists j :: 0 <= j < |rules| && m(rules[j], t[i].text) &&
                            (forall k :: 0 <= k < j ==> !m(rules[k], t[i].text)) &&
                            w[0] == (FindTarget(t, i, MaxTextLengthSmall, MaxTextLengthLarge), prefix + rules[j]))
  {
  }

  /** Every target of the walk is an unmarked candidate element of some visited node. */
  lemma {:induction false} WalkTargets(t: Tree, marker: seq<bool>, rules: seq<string>, m: (string, string) -> bool,
                                       prefix: string, n: nat)
    requires WellFormed(t) && |marker| == |t| && n <= |t|
    ensures forall k :: 0 <= k < |Walk(t, marker, rules, m, prefix, n)| ==>
              var e := Walk(t, marker, rules, m, prefix, n)[k].0;
              !marker[e] && exists i :: 0 <= i < n && Candidate(t, rules, m, i) == e
  {
    if n > 0 {
      WalkTargets(t, marker, rules, m, prefix, n - 1);
      var a := Walk(t, marker, rules, m, prefix, n - 1);
      var b := WalkItem(t, marker, rules, m, prefix, n - 1);
      var ts := Walk(t, marker, rules, m, prefix, n);
      forall k | 0 <= k < |ts|
        ensures !marker[ts[k].0] && exists i :: 0 <= i < n && Candidate(t, rules, m, i) == ts[k].0
      {
        if k < |a| {
          assert ts[k] == a[k];
          var i :| 0 <= i < n - 1 && Candidate(t, rules, m, i) == a[k].0;
          assert 0 <= i < n && Candidate(t, rules, m, i) == ts[k].0;
        } else {
          assert ts[k] == b[k - |a|] && b == WalkItem(t, marker, rules, m, prefix, n - 1) && |b| == 1;
          assert Candidate(t, rules, m, n - 1) == ts[k].0;
        }
      }
    }
  }

  /** Some target of `ts` is the element `e`. */
  predicate Collects(ts: seq<Target>, e: int) {
    exists k :: 0 <= k < |ts| && ts[k].0 == e
  }

  lemma CollectsAppend(a: seq<Target>, b: seq<Target>, e: int)
    requires Collects(a, e) || Collects(b, e)
    ensures Collects(a + b, e)
  {
    if Collects(a, e) {
      var k :| 0 <= k < |a| && a[k].0 == e;
      assert (a + b)[k] == a[k];
    } else {
      var k :| 0 <= k < |b| && b[k].0 == e;
      assert (a + b)[|a| + k] == b[k];
    }
  }

  /** Every unmarked candidate of a visited node is among the walk's targets. */
  lemma {:induction false} WalkCollects(t: Tree, marker: seq<bool>, rules: seq<string>, m: (string, string) -> bool,
                                        prefix: string, n: nat, i: int)
    requires WellFormed(t) && |marker| == |t| && n <= |t| && 0 <= i < n
    requires Candidate(t, rules, m, i) >= 0 && !marker[Candidate(t, rules, m, i)]
    ensures Collects(Walk(t, marker, rules, m, prefix, n), Candidate(t, rules, m, i))
  {
    var e := Candidate(t, rules, m, i);
    var a := Walk(t, marker, rules, m, prefix, n - 1);
    var b := WalkItem(t, marker, rules, m, prefix, n - 1);
    assert Walk(t, marker, rules, m, prefix, n) == a + b;
    if i == n - 1 {
      assert b[0].0 == e;
    } else {
      WalkCollects(t, marker, rules, m, prefix, n - 1, i);
    }
    CollectsAppend(a, b, e);
  }

  /** Every candidate of every node is hidden. */
  ghost predicate Covered(t: Tree, p: Page, rules: seq<string>, m: (string, string) -> bool)
    requires WellFormed(t) && Fits(t, p)
  {
    forall i :: 0 <= i < |t| && Candidate(t, rules, m, i) >= 0 ==> Hidden(p, Candidate(t, rules, m, i))
  }

  lemma CoveredGrows(t: Tree, p: Page, q: Page, rules: seq<string>, m: (string, string) -> bool)
    requires WellFormed(t) && Fits(t, p) && Fits(t, q) && Grows(t, p, q) && Covered(t, p, rules, m)
    ensures Covered(t, q, rules, m)
  {
  }

  /** After the walk's hides are applied, every candidate is hidden. */
  lemma WalkCovers(t: Tree, p: Page, rules: seq<string>, m: (string, string) -> bool, prefix: string)
    requires WellFormed(t) && Fits(t, p)
    ensures Covered(t, HideAll(t, p, Walk(t, p.marker, rules, m, prefix, |t|)).0, rules, m)
  {
    var ts := Walk(t, p.marker, rules, m, prefix, |t|);
    var r := HideAll(t, p, ts);
    HideAllSpec(t, p, ts);
    forall i | 0 <= i < |t| && Candidate(t, rules, m, i) >= 0
      ensures Hidden(r.0, Candidate(t, rules, m, i))
    {
      var e := Candidate(t, rules, m, i);
      if !p.marker[e] {
        WalkCollects(t, p.marker, rules, m, prefix, |t|, i);
        var k :| 0 <= k < |ts| && ts[k].0 == e;
      }
    }
  }

  /** On a page where every candidate is hidden, the walk and its hides change nothing. */
  lemma WalkNoop(t: Tree, p: Page, rules: seq<string>, m: (string, string) -> bool, prefix: string)
    requires WellFormed(t) && Fits(t, p) && Covered(t, p, rules, m)
    ensures HideAll(t, p, Walk(t, p.marker, rules, m, prefix, |t|)) == (p, false)
  {
    var ts := Walk(t, p.marker, rules, m, prefix, |t|);
    WalkTargets(t, p.marker, rules, m, prefix, |t|);
    HideAllNoop(t, p, ts);
  }

  /**
   * The walker is rooted at `document.body`: on a page whose text all lies
   * outside the body, the walk and its hides change nothing.
   */
  lemma WalkSkipsOutsideBody(t: Tree, p: Page, rules: seq<string>, m: (string, string) -> bool, prefix: string)
    requires WellFormed(t) && Fits(t, p)
    requires forall i :: 0 <= i < |t| && t[i].isText ==> !UnderBody(t, i)
    ensures HideAll(t, p, Walk(t, p.marker, rules, m, prefix, |t|)) == (p, false)
  {
    WalkNoop(t, p, rules, m, prefix);
  }

  /** `<html><head><title>secret</title></head><body></body></html>` */
  function TitlePage(): (t: Tree)
    ensures WellFormed(t)
  {
    [Node(-1, false, false, false, "secret"), Node(0, false, false, false, "secret"),
     Node(1, false, false, false, "secret"), Node(2, true, false, false, "secret"),
     Node(0, false, true, false, "")]
  }

  /** A keyword that occurs only in the `<title>` hides nothing. */
  lemma TitleKeywordNotHidden()
    ensures var p := Page(seq(5, _ => false), seq(5, _ => false), []);
            KeywordPass(TitlePage(), [Entry("secret", true)], p) == (p, false)
  {
    var t := TitlePage();
    var p := Page(seq(5, _ => false), seq(5, _ => false), []);
    assert Rules.ActiveValues([Entry("secret", true)]) == ["secret"];
    forall i | 0 <= i < |t| && t[i].isText
      ensures !UnderBody(t, i)
    {
      assert i == 3 && !UnderBody(t, 0) && !UnderBody(t, 1) && !UnderBody(t, 2);
    }
    WalkSkipsOutsideBody(t, p, ["secret"], KeywordTest, "Keyword: ");
  }

  // ---------------------------------------------------------------------
  // The three matchers and runHidingLogic
  // ---------------------------------------------------------------------

  /** `hideBySelectors(selectors)`, entered only when the rule set has `selectors`. */
  function SelectorPass(t: Tree, x: Engines, selectors: Option<seq<string>>, p: Page): (r: (Page, bool))
    requires WellFormed(t) && Fits(t, p) && QueryValid(t, x.query)
    ensures Fits(t, r.0)
  {
    if selectors.None? then (p, false) else HideAll(t, p, SelectorTargets(t, x.query, selectors.value))
  }

  /** `hideByKeywords(keywords)`: the walk over the active keywords, or nothing when there are none. */
  function KeywordPass(t: Tree, keywords: seq<RuleEntry>, p: Page): (r: (Page, bool))
    requires WellFormed(t) && Fits(t, p)
    ensures Fits(t, r.0)
  {
    if |keywords| == 0 then (p, false)
    else
      var active := Rules.ActiveValues(keywords);
      if |active| == 0 then (p, false)
      else HideAll(t, p, Walk(t, p.marker, active, KeywordTest, "Keyword: ", |t|))
  }

  /** `hideByPatterns(patterns)`: the walk over the compiled patterns, or nothing when none compiles. */
  function PatternPass(t: Tree, x: Engines, patterns: seq<RuleEntry>, p: Page): (r: (Page, bool))
    requires WellFormed(t) && Fits(t, p)
    ensures Fits(t, r.0)
  {
    if |patterns| == 0 then (p, false)
    else
      var regexes := Rules.CompilePatterns(patterns, x.compiles);
      if |regexes| == 0 then (p, false)
      else HideAll(t, p, Walk(t, p.marker, regexes, x.matches, "Pattern: ", |t|))
  }

  /** The module state that `runHidingLogic` reads. */
  datatype Settings = Settings(paused: bool, domainRules: Option<DomainRuleSet>, userRules: UserRules)

  /** No pass runs while paused, without a resolved rule set, or when that rule set is disabled. */
  predicate PassRuns(s: Settings) {
    !s.paused && s.domainRules.Some? && Rules.IsDomainEnabled(s.domainRules)
  }

  /** `runHidingLogic()`: selectors, then keywords, then patterns, each on the page the previous left. */
  function RunPass(t: Tree, x: Engines, s: Settings, p: Page): (r: (Page, bool))
    requires WellFormed(t) && Fits(t, p) && QueryValid(t, x.query)
    ensures Fits(t, r.0)
  {
    if !PassRuns(s) then (p, false)
    else
      var r1 := SelectorPass(t, x, s.domainRules.value.selectors, p);
      var r2 := KeywordPass(t, s.userRules.keywords, r1.0);
      var r3 := PatternPass(t, x, s.userRules.patterns, r2.0);
      (r3.0, r1.1 || r2.1 || r3.1)
  }

  lemma SelectorPassSpec(t: Tree, x: Engines, selectors: Option<seq<string>>, p: Page)
    requires WellFormed(t) && Fits(t, p) && QueryValid(t, x.query)
    ensures var r := SelectorPass(t, x, selectors, p);
            Grows(t, p, r.0) && (r.1 <==> |r.0.items| > |p.items|) &&
            (Consistent(t, p) ==> Consistent(t, r.0)) &&
            (forall i :: 0 <= i < |t| && r.0.marker[i] && !p.marker[i] ==> |r.0.items| > 0)
  {
    if selectors.Some? {
      HideAllSpec(t, p, SelectorTargets(t, x.query, selectors.value));
    }
  }

  lemma KeywordPassSpec(t: Tree, keywords: seq<RuleEntry>, p: Page)
    requires WellFormed(t) && Fits(t, p)
    ensures var r := KeywordPass(t, keywords, p);
            Grows(t, p, r.0) && (r.1 <==> |r.0.items| > |p.items|) &&
            (Consistent(t, p) ==> Consistent(t, r.0)) &&
            (forall i :: 0 <= i < |t| && r.0.marker[i] && !p.marker[i] ==> |r.0.items| > 0) &&
            Covered(t, r.0, Rules.ActiveValues(keywords), KeywordTest)
  {
    var active := Rules.ActiveValues(keywords);
    if |keywords| == 0 || |active| == 0 {
      if |keywords| == 0 {
        assert active == [];
      }
      forall i | 0 <= i < |t| ensures Candidate(t, active, KeywordTest, i) == -1 {
      }
    } else {
      HideAllSpec(t, p, Walk(t, p.marker, active, KeywordTest, "Keyword: ", |t|));
      WalkCovers(t, p, active, KeywordTest, "Keyword: ");
    }
  }

  lemma PatternPassSpec(t: Tree, x: Engines, patterns: seq<RuleEntry>, p: Page)
    requires WellFormed(t) && Fits(t, p)
    ensures var r := PatternPass(t, x, patterns, p);
            Grows(t, p, r.0) && (r.1 <==> |r.0.items| > |p.items|) &&
            (Consistent(t, p) ==> Consistent(t, r.0)) &&
            (forall i :: 0 <= i < |t| && r.0.marker[i] && !p.marker[i] ==> |r.0.items| > 0) &&
            Covered(t, r.0, Rules.CompilePatterns(patterns, x.compiles), x.matches)
  {
    var regexes := Rules.CompilePatterns(patterns, x.compiles);
    if |patterns| == 0 || |regexes| == 0 {
      if |patterns| == 0 {
        assert regexes == [];
      }
      forall i | 0 <= i < |t| ensures Candidate(t, regexes, x.matches, i) == -1 {
      }
    } else {
      HideAllSpec(t, p, Walk(t, p.marker, regexes, x.matches, "Pattern: ", |t|));
      WalkCovers(t, p, regexes, x.matches, "Pattern: ");
    }
  }

  /** `runHidingLogic` returns at once while paused, without a rule set, or for a disabled rule set. */
  lemma RunPassGuards(t: Tree, x: Engines, s: Settings, p: Page)
    requires WellFormed(t) && Fits(t, p) && QueryValid(t, x.query)
    ensures s.paused ==> RunPass(t, x, s, p) == (p, false)
    ensures s.domainRules.None? ==> RunPass(t, x, s, p) == (p, false)
    ensures s.domainRules.Some? && s.domainRules.value.enabled == Some(false) ==> RunPass(t, x, s, p) == (p, false)
  {
  }

  /**
   * A pass is append-only: the descriptor list only grows at its end, no
   * flag is cleared, consistency is kept, and it reports a change exactly
   * when the descriptor set grew.  A pass that marks anything leaves the set
   * non-empty.
   */
  lemma RunPassSpec(t: Tree, x: Engines, s: Settings, p: Page)
    requires WellFormed(t) && Fits(t, p) && QueryValid(t, x.query)
    ensures var r := RunPass(t, x, s, p);
            Grows(t, p, r.0) && (r.1 <==> |r.0.items| > |p.items|) &&
            (Consistent(t, p) ==> Consistent(t, r.0)) &&
            (forall i :: 0 <= i < |t| && r.0.marker[i] && !p.marker[i] ==> |r.0.items| > 0)
  {
    if PassRuns(s) {
      var r1 := SelectorPass(t, x, s.domainRules.value.selectors, p);
      var r2 := KeywordPass(t, s.userRules.keywords, r1.0);
      var r3 := PatternPass(t, x, s.userRules.patterns, r2.0);
      SelectorPassSpec(t, x, s.domainRules.value.selectors, p);
      KeywordPassSpec(t, s.userRules.keywords, r1.0);
      PatternPassSpec(t, x, s.userRules.patterns, r2.0);
      GrowsTrans(t, p, r1.0, r2.0);
      GrowsTrans(t, p, r2.0, r3.0);
    }
  }

  /**
   * With every node's text held fixed, a second pass with the same rules
   * over the page the first pass left changes nothing and reports no change.
   * (A browser's `innerText` shrinks as descendants are hidden, which this
   * model does not capture.)
   */
  lemma RunPassIdempotent(t: Tree, x: Engines, s: Settings, p: Page)
    requires WellFormed(t) && Fits(t, p) && QueryValid(t, x.query)
    ensures var r := RunPass(t, x, s, p);
            RunPass(t, x, s, r.0) == (r.0, false)
  {
    if PassRuns(s) {
      var sels := s.domainRules.value.selectors;
      var r1 := SelectorPass(t, x, sels, p);
      var r2 := KeywordPass(t, s.userRules.keywords, r1.0);
      var r3 := PatternPass(t, x, s.userRules.patterns, r2.0);
      KeywordPassSpec(t, s.userRules.keywords, r1.0);
      PatternPassSpec(t, x, s.userRules.patterns, r2.0);
      GrowsTrans(t, r1.0, r2.0, r3.0);
      CoveredGrows(t, r2.0, r3.0, Rules.ActiveValues(s.userRules.keywords), KeywordTest);
      SelectorPassNoop(t, x, sels, p, r3.0);
      KeywordPassNoop(t, s.userRules.keywords, r3.0);
      PatternPassNoop(t, x, s.userRules.patterns, r3.0);
    }
  }

  /** The selector pass over a page grown from its own result hides nothing new. */
  lemma SelectorPassNoop(t: Tree, x: Engines, selectors: Option<seq<string>>, p: Page, q: Page)
    requires WellFormed(t) && Fits(t, p) && Fits(t, q) && QueryValid(t, x.query)
    requires Grows(t, SelectorPass(t, x, selectors, p).0, q)
    ensures SelectorPass(t, x, selectors, q) == (q, false)
  {
    if selectors.Some? {
      var ts := SelectorTargets(t, x.query, selectors.value);
      HideAllSpec(t, p, ts);
      HideAllNoop(t, q, ts);
    }
  }

  /** The keyword pass over a page where every keyword candidate is hidden hides nothing. */
  lemma KeywordPassNoop(t: Tree, keywords: seq<RuleEntry>, q: Page)
    requires WellFormed(t) && Fits(t, q) && Covered(t, q, Rules.ActiveValues(keywords), KeywordTest)
    ensures KeywordPass(t, keywords, q) == (q, false)
  {
    var active := Rules.ActiveValues(keywords);
    if |keywords| > 0 && |active| > 0 {
      WalkNoop(t, q, active, KeywordTest, "Keyword: ");
    }
  }

  /** The pattern pass over a page where every pattern candidate is hidden hides nothing. */
  lemma PatternPassNoop(t: Tree, x: Engines, patterns: seq<RuleEntry>, q: Page)
    requires WellFormed(t) && Fits(t, q) && Covered(t, q, Rules.CompilePatterns(patterns, x.compiles), x.matches)
    ensures PatternPass(t, x, patterns, q) == (q, false)
  {
    var regexes := Rules.CompilePatterns(patterns, x.compiles);
    if |patterns| > 0 && |regexes| > 0 {
      WalkNoop(t, q, regexes, x.matches, "Pattern: ");
    }
  }

  // ---------------------------------------------------------------------
  // unhideAll
  // ---------------------------------------------------------------------

  /** `unhideAll()` as written: every marked element loses both flags; the descriptor set is kept. */
  function Unhide(p: Page): (q: Page)
    ensures |q.displayNone| == |p.displayNone| && |q.marker| == |p.marker| && q.items == p.items
    ensures forall i :: 0 <= i < |q.marker| ==> !q.marker[i]
    ensures forall i :: 0 <= i < |q.displayNone| && i < |p.marker| ==>
              q.displayNone[i] == (p.displayNone[i] && !p.marker[i])
  {
    Page(seq(|p.displayNone|, i requires 0 <= i < |p.displayNone| =>
               p.displayNone[i] && !(i < |p.marker| && p.marker[i])),
         seq(|p.marker|, _ => false),
         p.items)
  }

  /**
   * `unhideAll()` with the descriptor set cleared as well, which is what a
   * page view after unhide-all evidently needs (see the Findings of the
   * README): the corrected pause handler `ApplyPauseReset` uses it.
   */
  function UnhideReset(p: Page): (q: Page)
    ensures q.items == [] && q.displayNone == Unhide(p).displayNone && q.marker == Unhide(p).marker
  {
    Unhide(p).(items := [])
  }

  /** Unhiding keeps consistency, and elements that were never marked keep their own style. */
  lemma UnhideSpec(t: Tree, p: Page)
    requires Consistent(t, p)
    ensures Consistent(t, Unhide(p)) && Consistent(t, UnhideReset(p))
    ensures forall i :: 0 <= i < |t| && !p.marker[i] ==> Unhide(p).displayNone[i] == p.displayNone[i]
    ensures forall i :: 0 <= i < |t| && p.marker[i] ==> !Hidden(Unhide(p), i)
  {
  }

  /**
   * As written: a page with one element that a selector matches.  The
   * first pass hides it and reports a change; after `unhideAll` (pause) the
   * resumed pass hides it again but reports no change, because its
   * descriptor is still in the set, so nothing is saved and the badge
   * keeps the 0 the pause sent.
   */
  lemma ResumeAfterUnhideReportsNoChange()
    ensures var r1 := RunPass(OneNode(), OneMatch(), ShopSettings(), Page([false], [false], []));
            var r2 := RunPass(OneNode(), OneMatch(), ShopSettings(), Unhide(r1.0));
            r1.1 && r1.0.marker[0] && !Unhide(r1.0).marker[0] && r2.0.marker[0] && !r2.1
  {
    var t := OneNode();
    OneNodeHides(Page([false], [false], []));
    var r1 := RunPass(t, OneMatch(), ShopSettings(), Page([false], [false], []));
    assert r1.0 == Page([true], [true], ["x"]);
    UnhideOneNode();
    OneNodeHides(Page([false], [false], ["x"]));
  }

  lemma UnhideOneNode()
    ensures Unhide(Page([true], [true], ["x"])) == Page([false], [false], ["x"])
  {
    var q := Unhide(Page([true], [true], ["x"]));
    assert q.displayNone == [false];
    assert q.marker == [false];
  }

  /** A page of one element whose text is `x`. */
  function OneNode(): (t: Tree)
    ensures WellFormed(t) && |t| == 1
  {
    [Node(-1, false, false, false, "x")]
  }

  /** Every selector matches that element; patterns never match. */
  function OneMatch(): (x: Engines)
    ensures QueryValid(OneNode(), x.query)
  {
    Engines((sel: string) => Some([0]), (pat: string) => true, (pat: string, text: string) => false)
  }

  /** An enabled rule set with one selector, and no user rules. */
  function ShopSettings(): (s: Settings)
    ensures PassRuns(s)
  {
    Settings(false, Some(DomainRuleSet("Shop", Some(["shop"]), Some(true), Some(["#addr"]))), UserRules([], []))
  }

  /** On the one-element page, a pass marks the element and adds `x` unless the set holds it already. */
  lemma OneNodeHides(p: Page)
    requires p.displayNone == [false] && p.marker == [false] && (p.items == [] || p.items == ["x"])
    ensures RunPass(OneNode(), OneMatch(), ShopSettings(), p) == (Page([true], [true], ["x"]), p.items == [])
  {
    var t := OneNode();
    var reason := "Selector: #addr";
    OneNodeTargets();
    OneNodeDescriptor();
    var h := Hide(t, p, 0, reason);
    assert !Hidden(p, 0);
    assert [false][0 := true] == [true];
    assert Descriptor(t, 0, reason) == "x";
    if p.items == [] {
      assert p.items + ["x"] == ["x"];
    } else {
      assert "x" in p.items;
    }
    assert h == (Page([true], [true], ["x"]), p.items == []);
    assert SelectorPass(t, OneMatch(), Some(["#addr"]), p) == h by {
      assert [(0, reason)][..0] == [];
    }
    assert KeywordPass(t, [], h.0) == (h.0, false);
    assert PatternPass(t, OneMatch(), [], h.0) == (h.0, false);
  }

  lemma OneNodeDescriptor()
    ensures Descriptor(OneNode(), 0, "Selector: #addr") == "x"
  {
    assert SingleSpaced("x");
    NormalizeFixes("x");
  }

  lemma OneNodeTargets()
    ensures SelectorTargets(OneNode(), OneMatch().query, ["#addr"]) == [(0, "Selector: #addr")]
  {
    var t := OneNode();
    assert ["#addr"][..0] == [];
    assert OneMatch().query("#addr") == Some([0]);
    assert SelectorTarget(t, 0) == 0;
    var sm := SelectorMatches(t, OneMatch().query, "#addr");
    assert "Selector: " + "#addr" == "Selector: #addr";
    assert OneMatch().query("#addr").value[0] == 0;
    assert |sm| == 1 && sm[0] == (0, "Selector: #addr");
    assert sm == [(0, "Selector: #addr")];
  }

  /**
   * Corrected: after the reset, a resumed pass that marks anything reports
   * a change, so the hidden items are saved and the badge is updated.
   */
  lemma ResumeAfterResetReportsChange(t: Tree, x: Engines, s: Settings, p: Page)
    requires WellFormed(t) && Fits(t, p) && QueryValid(t, x.query)
    ensures var u := UnhideReset(p);
            var r := RunPass(t, x, s, u);
            (exists i :: 0 <= i < |t| && r.0.marker[i]) ==> r.1
  {
    var u := UnhideReset(p);
    RunPassSpec(t, x, s, u);
  }

  // ---------------------------------------------------------------------
  // The content script's state and its storage-change handler
  // ---------------------------------------------------------------------

  /**
   * The content script's observable state: the settings, the page, the
   * toast once-flag, whether a debounced save is pending, the badge counts
   * sent so far, and the `privacy-guard-paused` body class.
   */
  datatype Script = Script(
    settings: Settings,
    page: Page,
    toastShown: bool,
    saveScheduled: bool,
    badges: seq<int>,
    bodyPaused: bool)

  /** `runHidingLogic()`: a pass; on a change, schedule a save and show the toast. */
  function Run(t: Tree, x: Engines, s: Script): (r: Script)
    requires WellFormed(t) && Fits(t, s.page) && QueryValid(t, x.query)
    ensures Fits(t, r.page)
  {
    var p := RunPass(t, x, s.settings, s.page);
    s.(page := p.0, saveScheduled := s.saveScheduled || p.1, toastShown := s.toastShown || p.1)
  }

  /** One entry of a storage `changes` object: absent, or present with a possibly missing `newValue`. */
  datatype Change<T> = Unchanged | Changed(newValue: Option<T>)

  /**
   * The `isPaused` branch: adopt the new value (a missing one is falsy),
   * update the body class, then unhide everything and send a zero badge
   * when pausing, or rescan when resuming.
   */
  function ApplyPause(t: Tree, x: Engines, s: Script, c: Change<bool>): (r: Script)
    requires WellFormed(t) && Fits(t, s.page) && QueryValid(t, x.query)
    ensures Fits(t, r.page)
  {
    match c
    case Unchanged => s
    case Changed(v) =>
      var paused := v.GetOr(false);
      var s1 := s.(settings := s.settings.(paused := paused), bodyPaused := paused);
      if paused then s1.(page := Unhide(s1.page), badges := s1.badges + [0])
      else Run(t, x, s1)
  }

  /**
   * Corrected: the `isPaused` branch with a pause that also clears the
   * descriptor set, so that a later resume counts its hidden elements anew.
   */
  function ApplyPauseReset(t: Tree, x: Engines, s: Script, c: Change<bool>): (r: Script)
    requires WellFormed(t) && Fits(t, s.page) && QueryValid(t, x.query)
    ensures Fits(t, r.page)
  {
    match c
    case Unchanged => s
    case Changed(v) =>
      var paused := v.GetOr(false);
      var s1 := s.(settings := s.settings.(paused := paused), bodyPaused := paused);
      if paused then s1.(page := UnhideReset(s1.page), badges := s1.badges + [0])
      else Run(t, x, s1)
  }

  /**
   * Corrected: with `ApplyPauseReset`, a pause followed by a resume whose
   * pass hides anything schedules a save, so the stored count and the
   * badge follow the page again.
   */
  lemma PauseResetThenResumeSaves(t: Tree, x: Engines, s: Script)
    requires WellFormed(t) && Consistent(t, s.page) && QueryValid(t, x.query)
    ensures var p := ApplyPauseReset(t, x, s, Changed(Some(true)));
            var r := ApplyPauseReset(t, x, p, Changed(Some(false)));
            p.page.items == [] && !r.settings.paused &&
            ((exists i :: 0 <= i < |t| && r.page.marker[i]) ==> r.saveScheduled)
  {
    var p := ApplyPauseReset(t, x, s, Changed(Some(true)));
    UnhideSpec(t, s.page);
    ResumeAfterResetReportsChange(t, x, p.settings.(paused := false), s.page);
  }

  /**
   * As written: pausing keeps the descriptor set, so on the one-element
   * page a pause followed by a resume hides the element again, yet no
   * save is scheduled and the last badge sent is the pause's 0.
   */
  lemma PauseThenResumeSavesNothing()
    ensures var s := Script(ShopSettings(), Page([true], [true], ["x"]), true, false, [1], false);
            var p := ApplyPause(OneNode(), OneMatch(), s, Changed(Some(true)));
            var r := ApplyPause(OneNode(), OneMatch(), p, Changed(Some(false)));
            r.page.marker[0] && !r.saveScheduled && r.badges == [1, 0]
  {
    var s := Script(ShopSettings(), Page([true], [true], ["x"]), true, false, [1], false);
    var p := ApplyPause(OneNode(), OneMatch(), s, Changed(Some(true)));
    UnhideOneNode();
    assert p.page == Page([false], [false], ["x"]);
    OneNodeHides(Page([false], [false], ["x"]));
    assert p.settings.(paused := false) == ShopSettings();
  }

  /** The `userRules` branch: adopt the new rules (the defaults when missing), rescan unless paused. */
  function ApplyUserRules(t: Tree, x: Engines, s: Script, c: Change<UserRules>): (r: Script)
    requires WellFormed(t) && Fits(t, s.page) && QueryValid(t, x.query)
    ensures Fits(t, r.page)
  {
    match c
    case Unchanged => s
    case Changed(v) =>
      var s1 := s.(settings := s.settings.(userRules := v.GetOr(DefaultUserRules)));
      if !s1.settings.paused then Run(t, x, s1) else s1
  }

  /** The `domainRules` branch: adopt the re-resolved rule set, rescan unless paused. */
  function ApplyDomainRules(t: Tree, x: Engines, s: Script, changed: bool, resolved: Option<DomainRuleSet>): (r: Script)
    requires WellFormed(t) && Fits(t, s.page) && QueryValid(t, x.query)
    ensures Fits(t, r.page)
  {
    if !changed then s
    else
      var s1 := s.(settings := s.settings.(domainRules := resolved));
      if !s1.settings.paused then Run(t, x, s1) else s1
  }

  /** `handleStorageChange(changes, area)`, the three branches in source order. */
  function OnStorageChange(t: Tree, x: Engines, s: Script, area: string,
                           paused: Change<bool>, userRules: Change<UserRules>, domainRules: bool,
                           resolved: Option<DomainRuleSet>): (r: Script)
    requires WellFormed(t) && Fits(t, s.page) && QueryValid(t, x.query)
    ensures Fits(t, r.page)
  {
    if area != "local" then s
    else
      ApplyDomainRules(t, x, ApplyUserRules(t, x, ApplyPause(t, x, s, paused), userRules), domainRules, resolved)
  }

  /**
   * Pausing unhides every marked element, keeps the descriptor set, sends
   * a zero badge and sets the body class; rules changes in the same event
   * then leave the page alone.
   */
  lemma PauseUnhidesEverything(t: Tree, x: Engines, s: Script, userRules: Change<UserRules>, domainRules: bool,
                               resolved: Option<DomainRuleSet>)
    requires WellFormed(t) && Consistent(t, s.page) && QueryValid(t, x.query)
    ensures var r := OnStorageChange(t, x, s, "local", Changed(Some(true)), userRules, domainRules, resolved);
            r.settings.paused && r.bodyPaused && r.page == Unhide(s.page) &&
            r.page.items == s.page.items &&
            |r.badges| > 0 && r.badges[|r.badges| - 1] == 0 &&
            forall i :: 0 <= i < |t| ==> !r.page.marker[i]
  {
  }

  /** Resuming rescans the page with the current rules. */
  lemma ResumeRescans(t: Tree, x: Engines, s: Script)
    requires WellFormed(t) && Fits(t, s.page) && QueryValid(t, x.query)
    ensures var r := OnStorageChange(t, x, s, "local", Changed(Some(false)), Unchanged, false, None);
            !r.settings.paused && !r.bodyPaused &&
            r.page == RunPass(t, x, s.settings.(paused := false), s.page).0
  {
  }

  /** While paused, changes of the rules never touch the page, and other storage areas are ignored. */
  lemma PausedPageIsUntouched(t: Tree, x: Engines, s: Script, area: string, userRules: Change<UserRules>,
                              domainRules: bool, resolved: Option<DomainRuleSet>)
    requires WellFormed(t) && Fits(t, s.page) && QueryValid(t, x.query)
    ensures s.settings.paused ==>
              OnStorageChange(t, x, s, area, Unchanged, userRules, domainRules, resolved).page == s.page
    ensures area != "local" ==>
              OnStorageChange(t, x, s, area, Changed(Some(true)), userRules, domainRules, resolved) == s
  {
  }

  /** A rescan keeps the page consistent and never clears the toast flag. */
  lemma RunKeepsInvariant(t: Tree, x: Engines, s: Script)
    requires WellFormed(t) && Consistent(t, s.page) && QueryValid(t, x.query)
    ensures Consistent(t, Run(t, x, s).page) && (s.toastShown ==> Run(t, x, s).toastShown)
  {
    RunPassSpec(t, x, s.settings, s.page);
  }

  lemma ApplyPauseKeepsInvariant(t: Tree, x: Engines, s: Script, c: Change<bool>)
    requires WellFormed(t) && Consistent(t, s.page) && QueryValid(t, x.query)
    ensures var r := ApplyPause(t, x, s, c);
            Consistent(t, r.page) && (s.toastShown ==> r.toastShown)
  {
    if c.Changed? {
      var paused := c.newValue.GetOr(false);
      var s1 := s.(settings := s.settings.(paused := paused), bodyPaused := paused);
      if paused {
        UnhideSpec(t, s.page);
      } else {
        RunKeepsInvariant(t, x, s1);
      }
    }
  }

  lemma ApplyUserRulesKeepsInvariant(t: Tree, x: Engines, s: Script, c: Change<UserRules>)
    requires WellFormed(t) && Consistent(t, s.page) && QueryValid(t, x.query)
    ensures var r := ApplyUserRules(t, x, s, c);
            Consistent(t, r.page) && (s.toastShown ==> r.toastShown)
  {
    if c.Changed? {
      RunKeepsInvariant(t, x, s.(settings := s.settings.(userRules := c.newValue.GetOr(DefaultUserRules))));
    }
  }

  lemma ApplyDomainRulesKeepsInvariant(t: Tree, x: Engines, s: Script, changed: bool, resolved: Option<DomainRuleSet>)
    requires WellFormed(t) && Consistent(t, s.page) && QueryValid(t, x.query)
    ensures var r := ApplyDomainRules(t, x, s, changed, resolved);
            Consistent(t, r.page) && (s.toastShown ==> r.toastShown)
  {
    if changed {
      RunKeepsInvariant(t, x, s.(settings := s.settings.(domainRules := resolved)));
    }
  }

  /** Every transition keeps the page consistent and never clears the toast flag. */
  lemma OnStorageChangeKeepsInvariant(t: Tree, x: Engines, s: Script, area: string, paused: Change<bool>,
                                      userRules: Change<UserRules>, domainRules: bool, resolved: Option<DomainRuleSet>)
    requires WellFormed(t) && Consistent(t, s.page) && QueryValid(t, x.query)
    ensures var r := OnStorageChange(t, x, s, area, paused, userRules, domainRules, resolved);
            Consistent(t, r.page) && (s.toastShown ==> r.toastShown)
  {
    if area == "local" {
      var s1 := ApplyPause(t, x, s, paused);
      ApplyPauseKeepsInvariant(t, x, s, paused);
      var s2 := ApplyUserRules(t, x, s1, userRules);
      ApplyUserRulesKeepsInvariant(t, x, s1, userRules);
      ApplyDomainRulesKeepsInvariant(t, x, s2, domainRules, resolved);
    }
  }

}
