/**
 * The content script of src/content/content.js as a class over the page's
 * `Document` and the `StorageManager`.  Each method is proved to compute the
 * corresponding function of `HidingSpec`, so the properties proved there
 * (append-only passes, rescans over fixed node texts, the pause guards)
 * hold of it.
 *
 * The badge messages sent to the background script are recorded in
 * `badges`; the debounce timer is the flag `saveScheduled`, and
 * `FlushSave` is the timer firing.
 */
module Content {
  import opened Types
  import opened Dom
  import opened Helpers
  import opened Constants
  import opened HidingSpec
  import Rules
  import Storage

  /** The inner loop of the tree walk: the first rule that accepts a non-empty `text`, or `-1`. */
  method FirstMatchingRule(rules: seq<string>, m: (string, string) -> bool, text: string) returns (j: int)
    ensures j == MatchIndex(rules, m, text)
  {
    j := 0;
    while j < |rules|
      invariant 0 <= j <= |rules|
      invariant MatchFrom(rules, m, text, j) == MatchIndex(rules, m, text)
    {
      if text != "" && m(rules[j], text) {
        return;
      }
      j := j + 1;
    }
    j := -1;
  }

  /** The tree walker's visit of node `i`: the target it collects, if any. */
  method VisitNode(t: Tree, marker: seq<bool>, rules: seq<string>, m: (string, string) -> bool, prefix: string, i: int)
    returns (item: seq<Target>)
    requires WellFormed(t) && |marker| == |t| && 0 <= i < |t|
    ensures item == WalkItem(t, marker, rules, m, prefix, i)
  {
    item := [];
    var node := t[i];
    if node.isText && UnderBody(t, i) {
      var j := FirstMatchingRule(rules, m, node.text);
      if j >= 0 {
        var target := FindTargetElement(t, i, MaxTextLengthSmall, MaxTextLengthLarge);
        if target >= 0 && !marker[target] {
          item := [(target, prefix + rules[j])];
        }
      }
    }
  }

  /** The tree walker's loop from `document.body` over the text nodes, in document order. */
  method WalkDocument(t: Tree, marker: seq<bool>, rules: seq<string>, m: (string, string) -> bool, prefix: string)
    returns (ts: seq<Target>)
    requires WellFormed(t) && |marker| == |t|
    ensures ts == Walk(t, marker, rules, m, prefix, |t|)
  {
    ts := [];
    var i := 0;
    while i < |t|
      invariant 0 <= i <= |t|
      invariant ts == Walk(t, marker, rules, m, prefix, i)
    {
      var item := VisitNode(t, marker, rules, m, prefix, i);
      assert Walk(t, marker, rules, m, prefix, i + 1) == ts + item;
      ts := ts + item;
      i := i + 1;
    }
  }

  class ContentScript {
    const doc: Document
    const storage: Storage.StorageManager
    const engines: Engines
    const hostname: string
    const bundled: Option<DomainTable>

    var isPaused: bool
    var hiddenItems: seq<string>
    var toastShown: bool
    /** How many toast elements were appended to the body. */
    var toastsShown: nat
    var currentDomainRules: Option<DomainRuleSet>
    var userRules: UserRules
    var saveScheduled: bool
    var bodyPaused: bool
    var badges: seq<int>

    ghost predicate Valid()
      reads this, doc, storage
    {
      doc.Valid() && storage.Valid() && QueryValid(doc.nodes, engines.query) &&
      Consistent(doc.nodes, PageState()) && toastsShown == (if toastShown then 1 else 0)
    }

    ghost function PageState(): Page
      reads this, doc
    {
      Page(doc.displayNone, doc.marker, hiddenItems)
    }

    ghost function State(): Script
      reads this, doc
    {
      Script(Settings(isPaused, currentDomainRules, userRules), PageState(), toastShown, saveScheduled, badges, bodyPaused)
    }

    /** The rule table `RulesManager.loadDomainRules` reads from storage. */
    ghost function StoredDomainRules(): Option<DomainTable>
      reads storage
      requires storage.Valid()
    {
      if !storage.faulty && DomainRulesKey in storage.store then Some(storage.store[DomainRulesKey].table) else None
    }

    /** The module state before `init`: nothing hidden, no rule set, no toast. */
    constructor (d: Document, s: Storage.StorageManager, x: Engines, host: string, b: Option<DomainTable>)
      requires d.Valid() && s.Valid() && QueryValid(d.nodes, x.query)
      requires forall i :: 0 <= i < |d.nodes| ==> !d.marker[i]
      ensures Valid() && doc == d && storage == s && engines == x && hostname == host && bundled == b
      ensures State() == Script(Settings(false, None, DefaultUserRules), Page(d.displayNone, d.marker, []),
                                false, false, [], false)
    {
      doc := d;
      storage := s;
      engines := x;
      hostname := host;
      bundled := b;
      isPaused := false;
      hiddenItems := [];
      toastShown := false;
      toastsShown := 0;
      currentDomainRules := None;
      userRules := DefaultUserRules;
      saveScheduled := false;
      bodyPaused := false;
      badges := [];
    }

    /** `hideElement(el, reason)`. */
    method HideElement(e: int, reason: string) returns (added: bool)
      requires doc.Valid() && 0 <= e < |doc.nodes|
      modifies doc`displayNone, doc`marker, this`hiddenItems
      ensures doc.Valid()
      ensures (PageState(), added) == Hide(doc.nodes, old(PageState()), e, reason)
    {
      if IsElementHidden(doc.displayNone, doc.marker, e) {
        return false;
      }
      doc.displayNone := doc.displayNone[e := true];
      doc.marker := doc.marker[e := true];
      var itemText := TruncateText(doc.nodes[e].text, PreviewTextLength);
      if itemText == "" {
        itemText := if reason != "" then reason else "Hidden Item";
      }
      if itemText !in hiddenItems {
        hiddenItems := hiddenItems + [itemText];
        return true;
      }
      return false;
    }

    /** `nodesToHide.forEach(...)`: hides the collected targets in order. */
    method HideTargets(ts: seq<Target>) returns (changed: bool)
      requires doc.Valid() && TargetsIn(doc.nodes, ts)
      modifies doc`displayNone, doc`marker, this`hiddenItems
      ensures doc.Valid()
      ensures (PageState(), changed) == HideAll(doc.nodes, old(PageState()), ts)
    {
      changed := false;
      var k := 0;
      while k < |ts|
        invariant 0 <= k <= |ts| && doc.Valid()
        invariant (PageState(), changed) == HideAll(doc.nodes, old(PageState()), ts[..k])
      {
        HideAllSnoc(doc.nodes, old(PageState()), ts, k);
        var added := HideElement(ts[k].0, ts[k].1);
        if added {
          changed := true;
        }
        k := k + 1;
      }
      assert ts[..|ts|] == ts;
    }

    /** The `try` block of `hideBySelectors` for one selector; an invalid selector hides nothing. */
    method HideMatches(selector: string) returns (changed: bool)
      requires doc.Valid() && QueryValid(doc.nodes, engines.query)
      modifies doc`displayNone, doc`marker, this`hiddenItems
      ensures doc.Valid()
      ensures (PageState(), changed) == HideAll(doc.nodes, old(PageState()), SelectorMatches(doc.nodes, engines.query, selector))
    {
      changed := false;
      var found := engines.query(selector);
      if found.None? {
        return;
      }
      var els := found.value;
      ghost var ts := SelectorMatches(doc.nodes, engines.query, selector);
      var k := 0;
      while k < |els|
        invariant 0 <= k <= |els| && doc.Valid()
        invariant (PageState(), changed) == HideAll(doc.nodes, old(PageState()), ts[..k])
      {
        HideAllSnoc(doc.nodes, old(PageState()), ts, k);
        var target := SelectorTarget(doc.nodes, els[k]);
        assert ts[k] == (target, "Selector: " + selector);
        var added := HideElement(target, "Selector: " + selector);
        if added {
          changed := true;
        }
        k := k + 1;
      }
      assert ts[..|els|] == ts;
    }

    /** `hideBySelectors(selectors)`. */
    method HideBySelectors(selectors: seq<string>) returns (changed: bool)
      requires doc.Valid() && QueryValid(doc.nodes, engines.query)
      modifies doc`displayNone, doc`marker, this`hiddenItems
      ensures doc.Valid()
      ensures (PageState(), changed) == HideAll(doc.nodes, old(PageState()), SelectorTargets(doc.nodes, engines.query, selectors))
    {
      changed := false;
      var j := 0;
      while j < |selectors|
        invariant 0 <= j <= |selectors| && doc.Valid()
        invariant (PageState(), changed) == HideAll(doc.nodes, old(PageState()), SelectorTargets(doc.nodes, engines.query, selectors[..j]))
      {
        assert selectors[..j + 1][..j] == selectors[..j];
        HideAllAppend(doc.nodes, old(PageState()), SelectorTargets(doc.nodes, engines.query, selectors[..j]),
                      SelectorMatches(doc.nodes, engines.query, selectors[j]));
        var c := HideMatches(selectors[j]);
        if c {
          changed := true;
        }
        j := j + 1;
      }
      assert selectors[..|selectors|] == selectors;
    }

    /**
     * The tree walk: for each text node, the first rule that matches it
     * picks a target, which is collected when it exists and is unmarked.
     */
    method CollectTargets(rules: seq<string>, m: (string, string) -> bool, prefix: string) returns (ts: seq<Target>)
      requires doc.Valid()
      ensures ts == Walk(doc.nodes, doc.marker, rules, m, prefix, |doc.nodes|)
    {
      ts := WalkDocument(doc.nodes, doc.marker, rules, m, prefix);
    }

    /** `hideByKeywords(keywords)`. */
    method HideByKeywords(keywords: seq<RuleEntry>) returns (changed: bool)
      requires doc.Valid()
      modifies doc`displayNone, doc`marker, this`hiddenItems
      ensures doc.Valid()
      ensures (PageState(), changed) == KeywordPass(doc.nodes, keywords, old(PageState()))
    {
      if |keywords| == 0 {
        return false;
      }
      var active := Rules.ActiveValues(keywords);
      if |active| == 0 {
        return false;
      }
      var nodesToHide := CollectTargets(active, KeywordTest, "Keyword: ");
      changed := HideTargets(nodesToHide);
    }

    /** `hideByPatterns(patterns)`. */
    method HideByPatterns(patterns: seq<RuleEntry>) returns (changed: bool)
      requires doc.Valid()
      modifies doc`displayNone, doc`marker, this`hiddenItems
      ensures doc.Valid()
      ensures (PageState(), changed) == PatternPass(doc.nodes, engines, patterns, old(PageState()))
    {
      if |patterns| == 0 {
        return false;
      }
      var regexes := Rules.CompilePatterns(patterns, engines.compiles);
      if |regexes| == 0 {
        return false;
      }
      var nodesToHide := CollectTargets(regexes, engines.matches, "Pattern: ");
      changed := HideTargets(nodesToHide);
    }

    /** `showToast()`: at most one toast per page load. */
    method ShowToast()
      requires toastsShown == (if toastShown then 1 else 0)
      modifies this`toastShown, this`toastsShown
      ensures toastShown && toastsShown == 1
      ensures old(toastShown) ==> toastsShown == old(toastsShown)
    {
      if toastShown {
        return;
      }
      toastShown := true;
      toastsShown := toastsShown + 1;
    }

    /** The guards and the three matchers of `runHidingLogic()`, without the saving and the toast. */
    method RunMatchers() returns (changed: bool)
      requires doc.Valid() && QueryValid(doc.nodes, engines.query)
      modifies doc`displayNone, doc`marker, this`hiddenItems
      ensures doc.Valid()
      ensures (PageState(), changed) == RunPass(doc.nodes, engines, Settings(isPaused, currentDomainRules, userRules), old(PageState()))
    {
      ghost var p0 := PageState();
      ghost var settings := Settings(isPaused, currentDomainRules, userRules);
      changed := false;
      if isPaused || currentDomainRules.None? {
        return;
      }
      if !Rules.IsDomainEnabled(currentDomainRules) {
        return;
      }
      ghost var r1 := SelectorPass(doc.nodes, engines, currentDomainRules.value.selectors, p0);
      ghost var r2 := KeywordPass(doc.nodes, userRules.keywords, r1.0);
      ghost var r3 := PatternPass(doc.nodes, engines, userRules.patterns, r2.0);
      assert RunPass(doc.nodes, engines, settings, p0) == (r3.0, r1.1 || r2.1 || r3.1);
      changed := SelectorMatcher(currentDomainRules.value.selectors);
      assert PageState() == r1.0;
      var c2 := HideByKeywords(userRules.keywords);
      if c2 {
        changed := true;
      }
      assert PageState() == r2.0;
      var c3 := HideByPatterns(userRules.patterns);
      if c3 {
        changed := true;
      }
    }

    /** The selector step of `runHidingLogic()`: the domain's selectors, when it has any. */
    method SelectorMatcher(selectors: Option<seq<string>>) returns (changed: bool)
      requires doc.Valid() && QueryValid(doc.nodes, engines.query)
      modifies doc`displayNone, doc`marker, this`hiddenItems
      ensures doc.Valid()
      ensures (PageState(), changed) == SelectorPass(doc.nodes, engines, selectors, old(PageState()))
    {
      changed := false;
      if selectors.Some? {
        var c := HideBySelectors(selectors.value);
        if c {
          changed := true;
        }
      }
    }

    /** `runHidingLogic()`: on a change, schedule the debounced save and show the toast. */
    method RunHidingLogic()
      requires Valid()
      modifies doc`displayNone, doc`marker, this`hiddenItems, this`saveScheduled, this`toastShown, this`toastsShown
      ensures Valid() && toastsShown <= 1
      ensures State() == Run(doc.nodes, engines, old(State()))
    {
      ghost var r := Run(doc.nodes, engines, State());
      RunKeepsInvariant(doc.nodes, engines, State());
      var changed := RunMatchers();
      assert State() == old(State()).(page := r.page);
      AfterPass(changed);
    }

    /** The end of `runHidingLogic()`: a change schedules the save and shows the toast. */
    method AfterPass(changed: bool)
      requires Valid()
      modifies this`saveScheduled, this`toastShown, this`toastsShown
      ensures Valid()
      ensures State() == old(State()).(saveScheduled := old(saveScheduled) || changed, toastShown := old(toastShown) || changed)
    {
      if changed {
        saveScheduled := true;
        ShowToast();
      }
    }

    /** `unhideAll()` as written: clears both flags of every marked element. */
    method UnhideAll()
      requires doc.Valid()
      modifies doc`displayNone, doc`marker
      ensures doc.Valid()
      ensures PageState() == Unhide(old(PageState()))
    {
      var i := 0;
      while i < |doc.nodes|
        invariant 0 <= i <= |doc.nodes| && doc.Valid()
        invariant forall k :: 0 <= k < i ==>
                    !doc.marker[k] && doc.displayNone[k] == (old(doc.displayNone)[k] && !old(doc.marker)[k])
        invariant forall k :: i <= k < |doc.nodes| ==>
                    doc.marker[k] == old(doc.marker)[k] && doc.displayNone[k] == old(doc.displayNone)[k]
      {
        if doc.marker[i] {
          doc.displayNone := doc.displayNone[i := false];
          doc.marker := doc.marker[i := false];
        }
        i := i + 1;
      }
    }

    /** `updateBodyClass()`. */
    method UpdateBodyClass()
      modifies this`bodyPaused
      ensures bodyPaused == isPaused
    {
      bodyPaused := isPaused;
    }

    /** `updateBadge(count)`: one message to the background script. */
    method UpdateBadge(count: int)
      modifies this`badges
      ensures badges == old(badges) + [count]
    {
      badges := badges + [count];
    }

    /**
     * The debounce timer firing: `saveHiddenItems()` stores the count and the
     * descriptors, then sends the count as the badge, even when the write failed.
     */
    method FlushSave()
      requires Valid()
      modifies storage`store, this`saveScheduled, this`badges
      ensures Valid() && !saveScheduled
      ensures old(saveScheduled) ==>
                badges == old(badges) + [|hiddenItems|] &&
                storage.store == if storage.faulty then old(storage.store)
                                 else old(storage.store)[HiddenCountKey := Storage.NumV(|hiddenItems|)]
                                                        [HiddenItemsKey := Storage.ItemsV(hiddenItems)]
      ensures !old(saveScheduled) ==> badges == old(badges) && storage.store == old(storage.store)
    {
      if saveScheduled {
        saveScheduled := false;
        var _ := storage.SetHiddenData(|hiddenItems|, hiddenItems);
        UpdateBadge(|hiddenItems|);
      }
    }

    /**
     * The `isPaused` branch of `handleStorageChange`.  Pausing unhides the
     * marked elements but keeps the descriptor set, as `unhideAll` does.
     */
    method OnPausedChange(paused: Change<bool>)
      requires Valid()
      modifies this, doc`displayNone, doc`marker
      ensures Valid() && toastsShown <= 1
      ensures State() == ApplyPause(doc.nodes, engines, old(State()), paused)
    {
      if paused.Changed? {
        isPaused := paused.newValue.GetOr(false);
        UpdateBodyClass();
        if isPaused {
          UnhideSpec(doc.nodes, PageState());
          UnhideAll();
          UpdateBadge(0);
        } else {
          RunHidingLogic();
        }
      }
    }

    /** The `userRules` branch of `handleStorageChange`. */
    method OnUserRulesChange(rules: Change<UserRules>)
      requires Valid()
      modifies this, doc`displayNone, doc`marker
      ensures Valid() && toastsShown <= 1
      ensures State() == ApplyUserRules(doc.nodes, engines, old(State()), rules)
    {
      if rules.Changed? {
        userRules := rules.newValue.GetOr(DefaultUserRules);
        if !isPaused {
          RunHidingLogic();
        }
      }
    }

    /**
     * The `domainRules` branch of `handleStorageChange`; the re-resolution
     * of the rule set is taken to complete before the next event.
     */
    method OnDomainRulesChange(changed: bool)
      requires Valid()
      modifies this, doc`displayNone, doc`marker
      ensures Valid() && toastsShown <= 1
      ensures State() == ApplyDomainRules(doc.nodes, engines, old(State()), changed,
                                          Rules.Resolve(StoredDomainRules(), bundled, hostname))
    {
      if changed {
        currentDomainRules := Rules.LoadDomainRules(storage, bundled, hostname);
        if !isPaused {
          RunHidingLogic();
        }
      }
    }

    /** `handleStorageChange(changes, area)`: only the local area counts; the branches run in source order. */
    method HandleStorageChange(area: string, paused: Change<bool>, rules: Change<UserRules>, domainRules: bool)
      requires Valid()
      modifies this, doc`displayNone, doc`marker
      ensures Valid() && toastsShown <= 1
      ensures State() == OnStorageChange(doc.nodes, engines, old(State()), area, paused, rules, domainRules,
                                         Rules.Resolve(StoredDomainRules(), bundled, hostname))
    {
      if area != "local" {
        return;
      }
      OnPausedChange(paused);
      OnUserRulesChange(rules);
      OnDomainRulesChange(domainRules);
    }

    /**
     * `init()`: read the pause flag and the user rules, resolve the rule set
     * for the page's host, set the body class, and run a pass unless paused.
     */
    method Init()
      requires Valid()
      modifies this, doc`displayNone, doc`marker
      ensures Valid() && toastsShown <= 1
      ensures var loaded := old(State()).(
                settings := Settings(
                  !storage.faulty && IsPausedKey in storage.store && storage.store[IsPausedKey].b,
                  Rules.Resolve(StoredDomainRules(), bundled, hostname),
                  if !storage.faulty && UserRulesKey in storage.store then storage.store[UserRulesKey].rules
                  else DefaultUserRules),
                bodyPaused := !storage.faulty && IsPausedKey in storage.store && storage.store[IsPausedKey].b);
              State() == if loaded.settings.paused then loaded else Run(doc.nodes, engines, loaded)
    {
      LoadSettings();
      if !isPaused {
        RunHidingLogic();
      }
    }

    /** The loading half of `init()`: the pause flag, the user rules and the site's rule set, then the body class. */
    method LoadSettings()
      requires storage.Valid()
      modifies this`isPaused, this`userRules, this`currentDomainRules, this`bodyPaused
      ensures isPaused == (!storage.faulty && IsPausedKey in storage.store && storage.store[IsPausedKey].b)
      ensures userRules == if !storage.faulty && UserRulesKey in storage.store then storage.store[UserRulesKey].rules
                           else DefaultUserRules
      ensures currentDomainRules == Rules.Resolve(StoredDomainRules(), bundled, hostname)
      ensures bodyPaused == isPaused
    {
      isPaused := storage.GetIsPaused();
      userRules := storage.GetUserRules();
      currentDomainRules := Rules.LoadDomainRules(storage, bundled, hostname);
      UpdateBodyClass();
    }

    /** The mutation observer's callback: a pass unless paused. */
    method OnMutation()
      requires Valid()
      modifies doc`displayNone, doc`marker, this`hiddenItems, this`saveScheduled, this`toastShown, this`toastsShown
      ensures Valid() && toastsShown <= 1
      ensures State() == if old(isPaused) then old(State()) else Run(doc.nodes, engines, old(State()))
    {
      if !isPaused {
        RunHidingLogic();
      }
    }
  }
}
