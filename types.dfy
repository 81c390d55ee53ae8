/**
 * The values the extension keeps in storage and passes between its parts:
 * user rule entries (bare legacy strings or toggleable objects), the user
 * rule lists, and domain rule sets keyed by an identifier.
 */
module Types {

  datatype Option<+T> = None | Some(value: T) {
    /** `x || fallback` for a value that is either present or absent. */
    function GetOr(fallback: T): T {
      match this
      case Some(v) => v
      case None => fallback
    }
  }

  /** A keyword or pattern entry: a bare string (legacy format) or `{ value, enabled }`. */
  datatype RuleEntry = Legacy(text: string) | Entry(value: string, enabled: bool)

  /** `typeof e === 'string' ? e : e.value`. */
  function EntryValue(e: RuleEntry): string {
    match e
    case Legacy(s) => s
    case Entry(v, _) => v
  }

  /** `{ keywords, patterns }`. */
  datatype UserRules = UserRules(keywords: seq<RuleEntry>, patterns: seq<RuleEntry>)

  /**
   * `{ name, matches, enabled, selectors }`; a field that may be missing in
   * stored or imported data is an `Option`.
   */
  datatype DomainRuleSet = DomainRuleSet(
    name: string,
    matches: Option<seq<string>>,
    enabled: Option<bool>,
    selectors: Option<seq<string>>)

  /** A JavaScript object of domain rule sets, as `Object.entries` lists it. */
  type DomainTable = seq<(string, DomainRuleSet)>

  /** The two fields of an imported settings file that the import reads; either may be missing. */
  datatype ImportData = ImportData(userRules: Option<UserRules>, domainRules: Option<DomainTable>)

  function Keys(t: DomainTable): (ks: seq<string>)
    ensures |ks| == |t| && forall i :: 0 <= i < |t| ==> ks[i] == t[i].0
  {
    if t == [] then [] else [t[0].0] + Keys(t[1..])
  }

  /** No key appears twice, as in any JavaScript object. */
  predicate UniqueKeys(t: DomainTable) {
    forall i, j :: 0 <= i < j < |t| ==> t[i].0 != t[j].0
  }

  /** `t[k]` for an object given by its entries. */
  function Lookup(t: DomainTable, k: string): Option<DomainRuleSet> {
    if t == [] then None else if t[0].0 == k then Some(t[0].1) else Lookup(t[1..], k)
  }

  predicate HasKey(t: DomainTable, k: string) {
    exists i :: 0 <= i < |t| && t[i].0 == k
  }
}
