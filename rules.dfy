/**
 * RulesManager of src/utils/rules.js: the three-tier domain rule lookup and
 * the filtering of user rule entries.  The regular-expression compiler is an
 * oracle `compiles`: it holds of a pattern exactly when `new RegExp(pattern)`
 * does not throw.
 */
module Rules {
  import opened Types
  import opened Strings
  import opened Config
  import Storage
  import Constants

  /** `domain.matches && domain.matches.some(m => hostname.includes(m))`. */
  predicate DomainMatches(d: DomainRuleSet, hostname: string) {
    d.matches.Some? && SomeContained(d.matches.value, hostname)
  }

  /** The first entry, in entry order, whose `matches` contains a substring of `hostname`. */
  function FirstMatching(t: DomainTable, hostname: string): Option<DomainRuleSet> {
    if t == [] then None
    else if DomainMatches(t[0].1, hostname) then Some(t[0].1)
    else FirstMatching(t[1..], hostname)
  }

  /**
   * `FirstMatching` picks the entry at the least matching index, and finds
   * nothing only when no entry matches.
   */
  lemma {:induction false} FirstMatchingSpec(t: DomainTable, hostname: string)
    ensures FirstMatching(t, hostname).None? <==> forall i :: 0 <= i < |t| ==> !DomainMatches(t[i].1, hostname)
    ensures FirstMatching(t, hostname).Some? ==>
              exists i :: 0 <= i < |t| && DomainMatches(t[i].1, hostname) &&
                (forall j :: 0 <= j < i ==> !DomainMatches(t[j].1, hostname)) &&
                FirstMatching(t, hostname) == Some(t[i].1)
  {
    if t != [] && !DomainMatches(t[0].1, hostname) {
      FirstMatchingSpec(t[1..], hostname);
      if FirstMatching(t[1..], hostname).Some? {
        var k :| 0 <= k < |t| - 1 && DomainMatches(t[1..][k].1, hostname) &&
                 (forall j :: 0 <= j < k ==> !DomainMatches(t[1..][j].1, hostname)) &&
                 FirstMatching(t[1..], hostname) == Some(t[1..][k].1);
        assert forall j :: 0 <= j < k + 1 ==> !DomainMatches(t[j].1, hostname) by {
          forall j | 0 < j < k + 1 ensures !DomainMatches(t[j].1, hostname) {
            assert t[j] == t[1..][j - 1];
          }
        }
        assert t[k + 1] == t[1..][k];
      } else {
        forall i | 0 < i < |t| ensures !DomainMatches(t[i].1, hostname) {
          assert t[i] == t[1..][i - 1];
        }
      }
    }
  }

  /** An entry without a `matches` array is never the result of a scan. */
  lemma {:induction false} FirstMatchingHasMatches(t: DomainTable, hostname: string)
    ensures FirstMatching(t, hostname).Some? ==>
              FirstMatching(t, hostname).value.matches.Some? &&
              exists i :: 0 <= i < |t| && FirstMatching(t, hostname) == Some(t[i].1)
  {
    FirstMatchingSpec(t, hostname);
  }

  /** One tier of `loadDomainRules`: a `for` loop over the entries with an early return. */
  method ScanTier(t: DomainTable, hostname: string) returns (r: Option<DomainRuleSet>)
    ensures r == FirstMatching(t, hostname)
  {
    var i := 0;
    while i < |t|
      invariant 0 <= i <= |t|
      invariant FirstMatching(t, hostname) == FirstMatching(t[i..], hostname)
    {
      assert t[i..][1..] == t[i + 1..];
      if DomainMatches(t[i].1, hostname) {
        return Some(t[i].1);
      }
      i := i + 1;
    }
    r := None;
  }

  /**
   * The result of `loadDomainRules`: the stored tier, then the bundled
   * `rules.json` tier (`None` when fetching or parsing it failed), then the
   * built-in table; `None` when no tier has a match.
   */
  function Resolve(stored: Option<DomainTable>, bundled: Option<DomainTable>, hostname: string): Option<DomainRuleSet> {
    var s := if stored.Some? then FirstMatching(stored.value, hostname) else None;
    if s.Some? then s
    else
      var b := if bundled.Some? then FirstMatching(bundled.value, hostname) else None;
      if b.Some? then b else FirstMatching(SupportedDomains, hostname)
  }

  /**
   * First match wins across the tiers: a stored match hides both later tiers,
   * the bundled tier is consulted only without a stored match, a missing
   * bundled file falls through to the built-in table, and the result is
   * `None` only when no tier matches.
   */
  lemma TierPriority(stored: Option<DomainTable>, bundled: Option<DomainTable>, hostname: string)
    ensures stored.Some? && FirstMatching(stored.value, hostname).Some? ==>
              Resolve(stored, bundled, hostname) == FirstMatching(stored.value, hostname)
    ensures (stored.None? || FirstMatching(stored.value, hostname).None?) && bundled.Some? &&
            FirstMatching(bundled.value, hostname).Some? ==>
              Resolve(stored, bundled, hostname) == FirstMatching(bundled.value, hostname)
    ensures (stored.None? || FirstMatching(stored.value, hostname).None?) &&
            (bundled.None? || FirstMatching(bundled.value, hostname).None?) ==>
              Resolve(stored, bundled, hostname) == FirstMatching(SupportedDomains, hostname)
    ensures Resolve(stored, bundled, hostname).Some? ==> DomainMatches(Resolve(stored, bundled, hostname).value, hostname)
  {
    if stored.Some? {
      FirstMatchingSpec(stored.value, hostname);
    }
    if bundled.Some? {
      FirstMatchingSpec(bundled.value, hostname);
    }
    FirstMatchingSpec(SupportedDomains, hostname);
  }

  /** A host is supported exactly when the built-in tier alone resolves a rule set for it. */
  lemma {:induction false} SupportedIffBuiltInMatch(hostname: string)
    ensures IsSupportedDomain(hostname) <==> FirstMatching(SupportedDomains, hostname).Some?
  {
    FirstMatchingSpec(SupportedDomains, hostname);
    FlatMatchesSome(SupportedDomains, hostname);
    BuiltInEntriesWellFormed();
    assert forall k :: 0 <= k < |SupportedDomains| ==>
             (DomainMatches(SupportedDomains[k].1, hostname) <==>
              SomeContained(SupportedDomains[k].1.matches.GetOr([]), hostname));
  }

  /**
   * `loadDomainRules(hostname)`: reads the stored table through the storage
   * manager (`null` when absent or when the store fails), then scans the
   * tiers in order, returning at the first match.
   */
  method LoadDomainRules(storage: Storage.StorageManager, bundled: Option<DomainTable>, hostname: string)
    returns (r: Option<DomainRuleSet>)
    requires storage.Valid()
    ensures r == Resolve(
              if !storage.faulty && Constants.DomainRulesKey in storage.store
              then Some(storage.store[Constants.DomainRulesKey].table) else None,
              bundled, hostname)
  {
    var stored := storage.GetDomainRules();
    if stored.Some? {
      r := ScanTier(stored.value, hostname);
      if r.Some? {
        return;
      }
    }
    if bundled.Some? {
      r := ScanTier(bundled.value, hostname);
      if r.Some? {
        return;
      }
    }
    r := ScanTier(SupportedDomains, hostname);
  }

  /**
   * What one entry contributes after `map(...).filter(Boolean)`: a legacy
   * string counts as itself, an object only when `enabled`; an empty string
   * is falsy and dropped.
   */
  function ActiveValue(e: RuleEntry): Option<string> {
    match e
    case Legacy(s) => if s != "" then Some(s) else None
    case Entry(v, enabled) => if enabled && v != "" then Some(v) else None
  }

  /** The active keyword list of `hideByKeywords`, in entry order. */
  function ActiveValues(es: seq<RuleEntry>): seq<string> {
    if es == [] then []
    else (if ActiveValue(es[0]).Some? then [ActiveValue(es[0]).value] else []) + ActiveValues(es[1..])
  }

  /** Filtering distributes over concatenation, so order is kept and nothing is reordered. */
  lemma {:induction false} ActiveValuesAppend(a: seq<RuleEntry>, b: seq<RuleEntry>)
    ensures ActiveValues(a + b) == ActiveValues(a) + ActiveValues(b)
  {
    if a != [] {
      assert (a + b)[1..] == a[1..] + b;
      ActiveValuesAppend(a[1..], b);
    } else {
      assert a + b == b;
    }
  }

  /** A value is active exactly when some entry contributes it; no active value is empty. */
  lemma {:induction false} ActiveValuesMember(es: seq<RuleEntry>, x: string)
    ensures x in ActiveValues(es) <==> exists i :: 0 <= i < |es| && ActiveValue(es[i]) == Some(x)
    ensures x in ActiveValues(es) ==> x != ""
  {
    if es != [] {
      ActiveValuesMember(es[1..], x);
      if exists i :: 0 <= i < |es| && ActiveValue(es[i]) == Some(x) {
        var i :| 0 <= i < |es| && ActiveValue(es[i]) == Some(x);
        if i > 0 {
          assert es[1..][i - 1] == es[i];
        }
      }
      assert (exists i :: 0 <= i < |es| - 1 && ActiveValue(es[1..][i]) == Some(x)) ==>
               exists i :: 0 <= i < |es| && ActiveValue(es[i]) == Some(x);
    }
  }

  /** Legacy strings always count, objects only when enabled. */
  lemma ActiveValueCases(s: string, v: string)
    ensures s != "" ==> ActiveValues([Legacy(s)]) == [s]
    ensures v != "" ==> ActiveValues([Entry(v, true)]) == [v]
    ensures ActiveValues([Entry(v, false)]) == []
  {
    assert [Legacy(s)][1..] == [];
    assert [Entry(v, true)][1..] == [];
    assert [Entry(v, false)][1..] == [];
  }

  /**
   * `compilePatterns(patterns)`, with each compiled regular expression
   * represented by its pattern string: the active values that compile.
   */
  function CompilePatterns(ps: seq<RuleEntry>, compiles: string -> bool): seq<string> {
    if ps == [] then []
    else
      (if ActiveValue(ps[0]).Some? && compiles(ActiveValue(ps[0]).value) then [ActiveValue(ps[0]).value] else []) +
      CompilePatterns(ps[1..], compiles)
  }

  /** Compilation distributes over concatenation: survivors keep their input order. */
  lemma {:induction false} CompilePatternsAppend(a: seq<RuleEntry>, b: seq<RuleEntry>, compiles: string -> bool)
    ensures CompilePatterns(a + b, compiles) == CompilePatterns(a, compiles) + CompilePatterns(b, compiles)
  {
    if a != [] {
      assert (a + b)[1..] == a[1..] + b;
      CompilePatternsAppend(a[1..], b, compiles);
    } else {
      assert a + b == b;
    }
  }

  /**
   * A pattern survives exactly when some entry makes it active and it
   * compiles; disabled entries, empty strings and invalid patterns are dropped.
   */
  lemma {:induction false} CompilePatternsMember(ps: seq<RuleEntry>, compiles: string -> bool, x: string)
    ensures x in CompilePatterns(ps, compiles) <==>
              compiles(x) && exists i :: 0 <= i < |ps| && ActiveValue(ps[i]) == Some(x)
    ensures x in CompilePatterns(ps, compiles) ==> x != ""
  {
    if ps != [] {
      CompilePatternsMember(ps[1..], compiles, x);
      if exists i :: 0 <= i < |ps| && ActiveValue(ps[i]) == Some(x) {
        var i :| 0 <= i < |ps| && ActiveValue(ps[i]) == Some(x);
        if i > 0 {
          assert ps[1..][i - 1] == ps[i];
        }
      }
      assert (exists i :: 0 <= i < |ps| - 1 && ActiveValue(ps[1..][i]) == Some(x)) ==>
               exists i :: 0 <= i < |ps| && ActiveValue(ps[i]) == Some(x);
    }
  }

  /** When every pattern compiles, the compiled list is the active list. */
  lemma {:induction false} CompilePatternsAllValid(ps: seq<RuleEntry>, compiles: string -> bool)
    requires forall i :: 0 <= i < |ps| && ActiveValue(ps[i]).Some? ==> compiles(ActiveValue(ps[i]).value)
    ensures CompilePatterns(ps, compiles) == ActiveValues(ps)
  {
    if ps != [] {
      assert forall i :: 0 <= i < |ps| - 1 ==> ps[1..][i] == ps[i + 1];
      CompilePatternsAllValid(ps[1..], compiles);
    }
  }

  /** `isValidPattern(pattern)`: whether compiling succeeds, without throwing. */
  predicate IsValidPattern(pattern: string, compiles: string -> bool) {
    compiles(pattern)
  }

  /** `isDomainEnabled(domainRules)`: a resolved rule set whose `enabled` is not `false`. */
  predicate IsDomainEnabled(d: Option<DomainRuleSet>) {
    d.Some? && d.value.enabled != Some(false)
  }

  /** A missing rule set is not enabled; a missing flag defaults to enabled. */
  lemma DomainEnabledDefaults(d: DomainRuleSet)
    ensures !IsDomainEnabled(None)
    ensures IsDomainEnabled(Some(d)) <==> d.enabled.None? || d.enabled == Some(true)
  {
    if d.enabled.Some? {
      if d.enabled.value {
        assert d.enabled == Some(true);
      } else {
        assert d.enabled == Some(false);
      }
    }
  }
}
