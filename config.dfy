/**
 * The built-in domain table and the display-name lookup of
 * src/config/config.js.
 */
module Config {
  import opened Types
  import opened Strings

  /** SUPPORTED_DOMAINS, in declaration order. */
  const SupportedDomains: DomainTable := [
    ("google", DomainRuleSet(
      "Google Search",
      Some(["www.google.com", "www.google.co.jp"]),
      Some(true),
      Some([".O4T6Pe", ".vqkKIe", ".eKPi4", "update-location", ".dfB0uf"]))),
    ("gemini", DomainRuleSet(
      "Google Gemini",
      Some(["gemini.google.com"]),
      Some(true),
      Some(["location-footer", ".location-menu-item-container"]))),
    ("amazon", DomainRuleSet(
      "Amazon.co.jp",
      Some(["www.amazon.co.jp"]),
      Some(true),
      Some(["#nav-global-location-popover-link", "#glow-ingress-block", "[data-component=\"shippingAddress\"]"])))
  ]

  /** DOMAIN_DISPLAY_NAMES, in declaration order. */
  const DomainDisplayNames: seq<(string, string)> := [
    ("gemini.google.com", "Google Gemini"),
    ("google.com", "Google Search"),
    ("google.co.jp", "Google Search"),
    ("amazon.co.jp", "Amazon.co.jp")
  ]

  /** `Object.values(t).flatMap(d => d.matches)`; an entry without `matches` contributes nothing. */
  function FlatMatches(t: DomainTable): seq<string> {
    if t == [] then [] else t[0].1.matches.GetOr([]) + FlatMatches(t[1..])
  }

  /** SUPPORTED_DOMAIN_PATTERNS */
  const SupportedDomainPatterns: seq<string> := FlatMatches(SupportedDomains)

  /** The loop of `getDomainDisplayName` over a list of (key, name) pairs. */
  function DisplayNameIn(names: seq<(string, string)>, domain: string): string {
    if names == [] then domain
    else if Contains(domain, names[0].0) then names[0].1
    else DisplayNameIn(names[1..], domain)
  }

  /** `getDomainDisplayName(domain)` */
  function GetDomainDisplayName(domain: string): string {
    DisplayNameIn(DomainDisplayNames, domain)
  }

  /** `isSupportedDomain(domain)` */
  predicate IsSupportedDomain(domain: string) {
    SomeContained(SupportedDomainPatterns, domain)
  }

  /**
   * The display name is the value of the first key, in order, that the domain
   * contains; with no such key it is the domain itself.
   */
  lemma DisplayNameIsFirstMatch(names: seq<(string, string)>, domain: string)
    ensures (forall i :: 0 <= i < |names| ==> !Contains(domain, names[i].0)) ==>
              DisplayNameIn(names, domain) == domain
    ensures (exists i :: 0 <= i < |names| && Contains(domain, names[i].0)) ==>
              exists i :: 0 <= i < |names| && Contains(domain, names[i].0) &&
                (forall j :: 0 <= j < i ==> !Contains(domain, names[j].0)) &&
                DisplayNameIn(names, domain) == names[i].1
  {
    if exists i :: 0 <= i < |names| && Contains(domain, names[i].0) {
      var i := FirstKey(names, domain);
    } else {
      NoKeyName(names, domain);
    }
  }

  /** With no key contained in the domain, the walk falls through to the domain. */
  lemma {:induction false} NoKeyName(names: seq<(string, string)>, domain: string)
    requires forall i :: 0 <= i < |names| ==> !Contains(domain, names[i].0)
    ensures DisplayNameIn(names, domain) == domain
  {
    if names != [] {
      assert forall i :: 0 <= i < |names| - 1 ==> names[1..][i] == names[i + 1];
      NoKeyName(names[1..], domain);
    }
  }

  /** The first key contained in the domain, whose value is the display name. */
  lemma {:induction false} FirstKey(names: seq<(string, string)>, domain: string) returns (i: int)
    requires exists i :: 0 <= i < |names| && Contains(domain, names[i].0)
    ensures 0 <= i < |names| && Contains(domain, names[i].0)
    ensures forall j :: 0 <= j < i ==> !Contains(domain, names[j].0)
    ensures DisplayNameIn(names, domain) == names[i].1
  {
    if Contains(domain, names[0].0) {
      i := 0;
    } else {
      var i0 :| 0 <= i0 < |names| && Contains(domain, names[i0].0);
      assert names[1..][i0 - 1] == names[i0];
      var k := FirstKey(names[1..], domain);
      i := k + 1;
      assert names[i] == names[1..][k];
      forall j | 0 < j < i ensures !Contains(domain, names[j].0) {
        assert names[j] == names[1..][j - 1];
      }
    }
  }

  /** Because "gemini.google.com" is declared before "google.com", Gemini hosts get the Gemini name. */
  lemma GeminiHostsAreNamedGemini(domain: string)
    requires Contains(domain, "gemini.google.com")
    ensures GetDomainDisplayName(domain) == "Google Gemini"
  {
  }

  /** A domain containing no key is returned unchanged. */
  lemma UnknownDomainKeepsItsName(domain: string)
    requires forall i :: 0 <= i < |DomainDisplayNames| ==> !Contains(domain, DomainDisplayNames[i].0)
    ensures GetDomainDisplayName(domain) == domain
  {
    DisplayNameIsFirstMatch(DomainDisplayNames, domain);
  }

  /** The flattened pattern list contains a substring of `d` exactly when some entry's `matches` does. */
  lemma {:induction false} FlatMatchesSome(t: DomainTable, d: string)
    ensures SomeContained(FlatMatches(t), d) <==>
              exists k :: 0 <= k < |t| && SomeContained(t[k].1.matches.GetOr([]), d)
  {
    if t != [] {
      FlatMatchesSome(t[1..], d);
      SomeContainedAppend(t[0].1.matches.GetOr([]), FlatMatches(t[1..]), d);
      if exists k :: 0 <= k < |t| && SomeContained(t[k].1.matches.GetOr([]), d) {
        var k :| 0 <= k < |t| && SomeContained(t[k].1.matches.GetOr([]), d);
        if k > 0 {
          assert t[1..][k - 1] == t[k];
        }
      }
      assert (exists k :: 0 <= k < |t| - 1 && SomeContained(t[1..][k].1.matches.GetOr([]), d)) ==>
               exists k :: 0 <= k < |t| && SomeContained(t[k].1.matches.GetOr([]), d);
    }
  }

  /** SUPPORTED_DOMAIN_PATTERNS is every entry's `matches`, concatenated in table order. */
  lemma SupportedPatternsInTableOrder()
    ensures SupportedDomainPatterns ==
              SupportedDomains[0].1.matches.value + SupportedDomains[1].1.matches.value +
              SupportedDomains[2].1.matches.value
    ensures SupportedDomainPatterns == ["www.google.com", "www.google.co.jp", "gemini.google.com", "www.amazon.co.jp"]
  {
  }

  /** Every built-in entry is enabled and has non-empty `matches` and `selectors`. */
  lemma BuiltInEntriesWellFormed()
    ensures forall k :: 0 <= k < |SupportedDomains| ==>
              SupportedDomains[k].1.enabled == Some(true) &&
              SupportedDomains[k].1.matches.Some? && |SupportedDomains[k].1.matches.value| > 0 &&
              SupportedDomains[k].1.selectors.Some? && |SupportedDomains[k].1.selectors.value| > 0
    ensures UniqueKeys(SupportedDomains)
  {
  }
}
