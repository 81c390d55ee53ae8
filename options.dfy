/**
 * The rule-editing state of src/options/options.js: the module variables
 * `userRules`, `domainRules` and the two selection sets, and the handlers
 * that change them and save the result.  The list edits are functions on
 * entry sequences; the class `OptionsPage` applies them to its fields,
 * keeps track of which of its objects are the `SUPPORTED_DOMAINS` and
 * `DEFAULT_USER_RULES` constants themselves, and writes through the
 * `StorageManager`.
 */
module Options {
  import opened Types
  import opened Strings
  import opened Constants
  import opened Config
  import Storage
  import Helpers
  import Rules

  // ---------------------------------------------------------------------
  // Array.prototype.splice on one element
  // ---------------------------------------------------------------------

  /** `list.splice(i, 1)` for an index `i >= 0`: nothing happens past the end. */
  function Splice<T>(s: seq<T>, i: nat): seq<T> {
    if i < |s| then s[..i] + s[i + 1..] else s
  }

  /** `list.splice(i, 0, x)` for an index `i >= 0`: past the end, `x` is appended. */
  function InsertAt<T>(s: seq<T>, i: nat, x: T): seq<T> {
    if i <= |s| then s[..i] + [x] + s[i..] else s + [x]
  }

  /**
   * The index `list.splice(start, ...)` acts at, for the `parseInt` of a
   * dragged text (`None` for `NaN`): `NaN` counts as 0, a negative start
   * counts back from the end (stopping at 0), and a start past the end is
   * the length.
   */
  function SpliceStart(len: nat, start: Option<int>): (i: nat)
    ensures i <= len
    ensures start.None? ==> i == 0
    ensures start.Some? && 0 <= start.value <= len ==> i == start.value
    ensures start.Some? && start.value < 0 && 0 <= len + start.value ==> i == len + start.value
    ensures start.Some? && len + start.value < 0 ==> i == 0
  {
    var rel := start.GetOr(0);
    if rel < 0 then (if len + rel < 0 then 0 else len + rel)
    else if rel > len then len else rel
  }

  /** The drop handler: take the entry at `from` out, then put it in at `to`. */
  function Move<T>(s: seq<T>, from: nat, to: nat): seq<T>
    requires from < |s|
  {
    InsertAt(Splice(s, from), to, s[from])
  }

  /** Deleting an index in range shortens the list by one and keeps the others in order. */
  lemma SpliceSpec<T>(s: seq<T>, i: nat)
    ensures i < |s| ==> |Splice(s, i)| == |s| - 1 && multiset(Splice(s, i)) + multiset{s[i]} == multiset(s)
    ensures i < |s| ==> forall j :: 0 <= j < |s| - 1 ==> Splice(s, i)[j] == if j < i then s[j] else s[j + 1]
    ensures i >= |s| ==> Splice(s, i) == s
  {
    if i < |s| {
      assert s == s[..i] + [s[i]] + s[i + 1..];
    }
  }

  /** Removing what was just inserted at the same index gives the list back. */
  lemma SpliceInsert<T>(s: seq<T>, i: nat, x: T)
    requires i <= |s|
    ensures Splice(InsertAt(s, i, x), i) == s && InsertAt(s, i, x)[i] == x
  {
    assert (s[..i] + [x] + s[i..])[..i] == s[..i];
    assert (s[..i] + [x] + s[i..])[i + 1..] == s[i..];
  }

  /** Taking an entry out and putting it back at the same index gives the list back. */
  lemma InsertSplice<T>(s: seq<T>, i: nat)
    requires i < |s|
    ensures InsertAt(Splice(s, i), i, s[i]) == s
  {
    assert (s[..i] + s[i + 1..])[..i] == s[..i];
    assert (s[..i] + s[i + 1..])[i..] == s[i + 1..];
    assert s == s[..i] + [s[i]] + s[i + 1..];
  }

  /**
   * A drop between two rendered cards is a permutation: same length, same
   * entries, the moved entry lands at `to`, and the opposite drop undoes it.
   */
  lemma MoveSpec<T>(s: seq<T>, from: nat, to: nat)
    requires from < |s| && to < |s|
    ensures |Move(s, from, to)| == |s|
    ensures multiset(Move(s, from, to)) == multiset(s)
    ensures Move(s, from, to)[to] == s[from]
    ensures Move(Move(s, from, to), to, from) == s
    ensures from == to ==> Move(s, from, to) == s
  {
    var r := Splice(s, from);
    SpliceSpec(s, from);
    SpliceInsert(r, to, s[from]);
    assert multiset(InsertAt(r, to, s[from])) == multiset(r) + multiset{s[from]} by {
      assert InsertAt(r, to, s[from]) == r[..to] + [s[from]] + r[to..];
      assert r == r[..to] + r[to..];
    }
    InsertSplice(s, from);
  }

  // ---------------------------------------------------------------------
  // Keeping some entries of a list
  // ---------------------------------------------------------------------

  /** Which entries a derived list keeps: those the search shows, or those not selected. */
  datatype Keep = ByFilter(filter: string) | Unselected(selected: set<nat>)

  /** `val.toLowerCase().includes(lowerFilter)` behind `if (filter)`. */
  predicate Shown(e: RuleEntry, filter: string) {
    filter == "" || Contains(Lower(EntryValue(e)), Lower(filter))
  }

  predicate Keeps(k: Keep, j: nat, e: RuleEntry) {
    match k
    case ByFilter(f) => Shown(e, f)
    case Unselected(sel) => j !in sel
  }

  /** The entries of `s` that `k` keeps, in their order. */
  function Prune(s: seq<RuleEntry>, k: Keep): (r: seq<RuleEntry>)
    ensures |r| <= |s|
  {
    if s == [] then []
    else Prune(s[..|s| - 1], k) + (if Keeps(k, |s| - 1, s[|s| - 1]) then [s[|s| - 1]] else [])
  }

  /** The pruned prefix is a prefix of the pruned list. */
  lemma {:induction false} PrunePrefix(s: seq<RuleEntry>, k: Keep, i: nat)
    requires i <= |s|
    ensures |Prune(s[..i], k)| <= |Prune(s, k)| && Prune(s, k)[..|Prune(s[..i], k)|] == Prune(s[..i], k)
    decreases |s| - i
  {
    if i < |s| {
      PrunePrefix(s[..|s| - 1], k, i);
      assert s[..|s| - 1][..i] == s[..i];
      assert s[..|s|] == s;
    } else {
      assert s[..i] == s;
    }
  }

  /** A kept entry sits in the pruned list right after the pruned prefix before it. */
  lemma PruneAt(s: seq<RuleEntry>, k: Keep, j: nat)
    requires j < |s| && Keeps(k, j, s[j])
    ensures |Prune(s[..j], k)| < |Prune(s, k)| && Prune(s, k)[|Prune(s[..j], k)|] == s[j]
  {
    var q := Prune(s[..j], k);
    var p := Prune(s[..j + 1], k);
    PruneSnoc(s, k, j);
    PrunePrefix(s, k, j + 1);
    assert Prune(s, k)[..|p|][|q|] == p[|q|];
  }

  /** Pruning one entry more adds that entry when it is kept. */
  lemma PruneSnoc(s: seq<RuleEntry>, k: Keep, j: nat)
    requires j < |s| && Keeps(k, j, s[j])
    ensures Prune(s[..j + 1], k) == Prune(s[..j], k) + [s[j]]
  {
    assert s[..j + 1][..j] == s[..j];
  }

  /** The pruned list holds exactly the kept entries of `s`. */
  lemma {:induction false} PruneMembers(s: seq<RuleEntry>, k: Keep)
    ensures forall x :: x in Prune(s, k) ==> exists j :: 0 <= j < |s| && s[j] == x && Keeps(k, j, x)
    ensures forall j :: 0 <= j < |s| && Keeps(k, j, s[j]) ==> s[j] in Prune(s, k)
  {
    if s != [] {
      var init := s[..|s| - 1];
      PruneMembers(init, k);
      forall x | x in Prune(s, k)
        ensures exists j :: 0 <= j < |s| && s[j] == x && Keeps(k, j, x)
      {
        if x in Prune(init, k) {
          var j :| 0 <= j < |init| && init[j] == x && Keeps(k, j, x);
          assert s[j] == x;
        } else {
          assert s[|s| - 1] == x;
        }
      }
      forall j | 0 <= j < |s| && Keeps(k, j, s[j])
        ensures s[j] in Prune(s, k)
      {
        PruneAt(s, k, j);
      }
    }
  }

  /** The index in `s` of the entry at position `pos` of the pruned list. */
  function Origin(s: seq<RuleEntry>, k: Keep, pos: nat): (j: nat)
    requires pos < |Prune(s, k)|
    ensures j < |s| && Keeps(k, j, s[j]) && |Prune(s[..j], k)| == pos
  {
    var init := s[..|s| - 1];
    if pos < |Prune(init, k)| then
      var j := Origin(init, k, pos);
      assert s[j] == init[j] && s[..j] == init[..j];
      j
    else
      assert |Prune(s, k)| == |Prune(init, k)| + (if Keeps(k, |s| - 1, s[|s| - 1]) then 1 else 0);
      |s| - 1
  }

  /** `Origin` finds the entry that the pruned list shows at `pos`. */
  lemma OriginSpec(s: seq<RuleEntry>, k: Keep, pos: nat)
    requires pos < |Prune(s, k)|
    ensures s[Origin(s, k, pos)] == Prune(s, k)[pos]
  {
    PruneAt(s, k, Origin(s, k, pos));
  }

  // ---------------------------------------------------------------------
  // The render filter
  // ---------------------------------------------------------------------

  /** The list `renderKeywords(filter)` and `renderPatterns(filter)` draw. */
  function Filter(s: seq<RuleEntry>, filter: string): seq<RuleEntry> {
    Prune(s, ByFilter(filter))
  }

  /**
   * The filter keeps exactly the entries whose value contains the filter,
   * ignoring ASCII case, in list order; the empty filter keeps all.
   */
  lemma FilterSpec(s: seq<RuleEntry>, filter: string)
    ensures forall x :: x in Filter(s, filter) <==> x in s && Shown(x, filter)
    ensures filter == "" ==> Filter(s, filter) == s
    ensures Lower(filter) == "" ==> Filter(s, filter) == s
  {
    PruneMembers(s, ByFilter(filter));
    if Lower(filter) == "" {
      FilterAll(s, filter);
    }
  }

  lemma {:induction false} FilterAll(s: seq<RuleEntry>, filter: string)
    requires filter == "" || Lower(filter) == ""
    ensures Filter(s, filter) == s
  {
    if s != [] {
      FilterAll(s[..|s| - 1], filter);
      ContainsEmpty(Lower(EntryValue(s[|s| - 1])));
      assert s[..|s| - 1] + [s[|s| - 1]] == s;
    }
  }

  lemma ContainsEmpty(s: string)
    ensures Contains(s, "")
  {
    ContainsIff(s, "");
    assert OccursAt(s, "", 0);
  }

  /**
   * As written: a card's `data-index` is its position in the filtered list,
   * and `deleteKeyword` splices the whole list at that index.
   */
  function DeleteCardAsWritten(s: seq<RuleEntry>, filter: string, pos: nat): seq<RuleEntry> {
    Splice(s, pos)
  }

  /**
   * With the keywords `a`, `b` and the search `b`, the only card shows `b`,
   * but deleting it removes `a` and leaves `b`.
   */
  lemma FilteredDeleteRemovesOtherEntry()
    ensures var s := [Entry("a", true), Entry("b", true)];
            Filter(s, "b") == [Entry("b", true)] &&
            DeleteCardAsWritten(s, "b", 0) == [Entry("b", true)]
  {
    var s := [Entry("a", true), Entry("b", true)];
    assert Lower("a") == "a" && Lower("b") == "b";
    assert !Contains("a", "b") by {
      ContainsIff("a", "b");
      forall i ensures !OccursAt("a", "b", i) {
        if 0 <= i && i + 1 <= 1 {
          assert "a"[i..i + 1] == "a";
        }
      }
    }
    ContainsSelf("b");
    assert s[..1] == [Entry("a", true)] && s[..1][..0] == [];
    assert Filter(s[..1], "b") == [];
  }

  /** Corrected: the card at `pos` of the filtered view stands for the entry at `Origin` of the list. */
  function CardIndex(s: seq<RuleEntry>, filter: string, pos: nat): nat
    requires pos < |Filter(s, filter)|
  {
    Origin(s, ByFilter(filter), pos)
  }

  /**
   * The corrected index points at the entry the card shows, and without a
   * filter it is the card's position, as in the source.
   */
  lemma CardIndexSpec(s: seq<RuleEntry>, filter: string, pos: nat)
    requires pos < |Filter(s, filter)|
    ensures CardIndex(s, filter, pos) < |s| && s[CardIndex(s, filter, pos)] == Filter(s, filter)[pos]
    ensures filter == "" ==> CardIndex(s, filter, pos) == pos
  {
    OriginSpec(s, ByFilter(filter), pos);
    if filter == "" {
      FilterAll(s, filter);
      FilterAll(s[..CardIndex(s, filter, pos)], filter);
    }
  }

  // ---------------------------------------------------------------------
  // Bulk delete
  // ---------------------------------------------------------------------

  /** The list without the selected indices (card indices, never negative); indices past the end select nothing. */
  function Without(s: seq<RuleEntry>, selected: set<nat>): seq<RuleEntry> {
    Prune(s, Unselected(selected))
  }

  /**
   * Bulk delete removes exactly the selected indices: every unselected
   * entry stays, in order, right after the unselected entries before it;
   * no selection is the identity and a single index is one `splice`.
   */
  lemma WithoutSpec(s: seq<RuleEntry>, selected: set<nat>)
    ensures forall j :: 0 <= j < |s| && j !in selected ==>
              |Without(s[..j], selected)| < |Without(s, selected)| &&
              Without(s, selected)[|Without(s[..j], selected)|] == s[j]
    ensures forall x :: x in Without(s, selected) ==> exists j :: 0 <= j < |s| && j !in selected && s[j] == x
    ensures (forall j :: 0 <= j < |s| ==> j !in selected) ==> Without(s, selected) == s
  {
    forall j | 0 <= j < |s| && j !in selected
      ensures |Without(s[..j], selected)| < |Without(s, selected)| &&
              Without(s, selected)[|Without(s[..j], selected)|] == s[j]
    {
      PruneAt(s, Unselected(selected), j);
    }
    PruneMembers(s, Unselected(selected));
    if forall j :: 0 <= j < |s| ==> j !in selected {
      WithoutNone(s, selected);
    }
  }

  lemma {:induction false} WithoutNone(s: seq<RuleEntry>, selected: set<nat>)
    requires forall j :: 0 <= j < |s| ==> j !in selected
    ensures Without(s, selected) == s
  {
    if s != [] {
      WithoutNone(s[..|s| - 1], selected);
      assert s[..|s| - 1] + [s[|s| - 1]] == s;
    }
  }

  lemma {:induction false} WithoutOne(s: seq<RuleEntry>, i: nat)
    requires i < |s|
    ensures Without(s, {i}) == Splice(s, i)
    decreases |s|
  {
    var init := s[..|s| - 1];
    if i == |s| - 1 {
      WithoutNone(init, {i});
      assert Splice(s, i) == init;
    } else {
      WithoutOne(init, i);
      assert Splice(s, i) == Splice(init, i) + [s[|s| - 1]];
    }
  }

  /**
   * `indices.forEach(index => list.splice(index, 1))` over the selected
   * indices sorted in descending order: visiting the indices of the list
   * from the top down and splicing the selected ones.
   */
  method DeleteSelected(s: seq<RuleEntry>, selected: set<nat>) returns (r: seq<RuleEntry>)
    ensures r == Without(s, selected)
  {
    r := s;
    var i := |s|;
    assert s[..|s|] == s;
    while i > 0
      invariant DeleteInv(s, selected, i, r)
    {
      DeleteStep(s, selected, i, r);
      if i - 1 in selected {
        r := Splice(r, i - 1);
      }
      i := i - 1;
    }
    assert Without(s[..0], selected) == [];
  }

  /** The loop state of the bulk delete: `r` is the untouched prefix `s[..i]`, then what survives of the rest. */
  predicate DeleteInv(s: seq<RuleEntry>, selected: set<nat>, i: int, r: seq<RuleEntry>) {
    0 <= i <= |s| &&
    |Without(s[..i], selected)| <= |Without(s, selected)| &&
    r == s[..i] + Without(s, selected)[|Without(s[..i], selected)|..]
  }

  /** One visit of the bulk delete: splicing index `i - 1` when it is selected keeps the loop state. */
  lemma DeleteStep(s: seq<RuleEntry>, selected: set<nat>, i: int, r: seq<RuleEntry>)
    requires 0 < i && DeleteInv(s, selected, i, r)
    ensures DeleteInv(s, selected, i - 1, if i - 1 in selected then Splice(r, i - 1) else r)
  {
    PrunePrefix(s, Unselected(selected), i - 1);
    assert s[..i][..i - 1] == s[..i - 1];
    if i - 1 in selected {
      assert Without(s[..i], selected) == Without(s[..i - 1], selected);
    } else {
      PruneAt(s, Unselected(selected), i - 1);
      assert Without(s[..i], selected) == Without(s[..i - 1], selected) + [s[i - 1]];
      assert s[..i] == s[..i - 1] + [s[i - 1]];
    }
  }

  // ---------------------------------------------------------------------
  // Migration, add and toggle
  // ---------------------------------------------------------------------

  /** The migration in `loadRules`: applies only when the first entry is a bare string. */
  function Migrate(s: seq<RuleEntry>): seq<RuleEntry> {
    if |s| > 0 && s[0].Legacy? then seq(|s|, i requires 0 <= i < |s| => Entry(EntryValue(s[i]), true)) else s
  }

  /**
   * A list that starts with a bare string becomes a list of enabled
   * objects with the same values in the same order; any other list is
   * kept; migrating twice is migrating once.
   */
  lemma MigrateSpec(s: seq<RuleEntry>)
    ensures |Migrate(s)| == |s|
    ensures forall i :: 0 <= i < |s| ==> EntryValue(Migrate(s)[i]) == EntryValue(s[i])
    ensures |s| > 0 && s[0].Legacy? ==> forall i :: 0 <= i < |s| ==> Migrate(s)[i] == Entry(EntryValue(s[i]), true)
    ensures !(|s| > 0 && s[0].Legacy?) ==> Migrate(s) == s
    ensures Migrate(Migrate(s)) == Migrate(s)
  {
  }

  /** What an add handler reports. */
  datatype AddOutcome = Added | EmptyInput | Invalid | Duplicate

  /** `list.some(k => k.value === v)`: only object entries have a `value`. */
  predicate HasObjectValue(s: seq<RuleEntry>, v: string) {
    exists i :: 0 <= i < |s| && s[i].Entry? && s[i].value == v
  }

  /** `list.some(p => (typeof p === 'string' ? p : p.value) === v)`. */
  predicate HasValue(s: seq<RuleEntry>, v: string) {
    exists i :: 0 <= i < |s| && EntryValue(s[i]) == v
  }

  /** `addKeyword`: trim, reject the empty string and values equal to an object entry's `value`. */
  function AddKeywordTo(s: seq<RuleEntry>, input: string): (seq<RuleEntry>, AddOutcome) {
    var v := Trim(input);
    if v == "" then (s, EmptyInput)
    else if HasObjectValue(s, v) then (s, Duplicate)
    else (s + [Entry(v, true)], Added)
  }

  /** `addPattern`: as `addKeyword`, but also rejects invalid regexes and compares legacy strings too. */
  function AddPatternTo(s: seq<RuleEntry>, input: string, compiles: string -> bool): (seq<RuleEntry>, AddOutcome) {
    var v := Trim(input);
    if v == "" then (s, EmptyInput)
    else if !compiles(v) then (s, Invalid)
    else if HasValue(s, v) then (s, Duplicate)
    else (s + [Entry(v, true)], Added)
  }

  /**
   * A keyword add appends the trimmed value as an enabled entry exactly
   * when it is non-empty and no object entry has that value; otherwise the
   * list is unchanged.  Only object entries are compared, so a legacy
   * string with the same text does not block the add.
   */
  lemma AddKeywordSpec(s: seq<RuleEntry>, input: string)
    ensures AddKeywordTo(s, input).1 == Added <==>
              Trim(input) != "" && forall i :: 0 <= i < |s| ==> s[i] != Entry(Trim(input), true) && s[i] != Entry(Trim(input), false)
    ensures AddKeywordTo(s, input).1 == Added ==> AddKeywordTo(s, input).0 == s + [Entry(Trim(input), true)]
    ensures AddKeywordTo(s, input).1 != Added ==> AddKeywordTo(s, input).0 == s
    ensures Trim(input) == "" <==> AddKeywordTo(s, input).1 == EmptyInput
  {
  }

  /**
   * A pattern add appends the trimmed value exactly when it is non-empty,
   * compiles, and no entry, legacy or object, has that value.
   */
  lemma PatternAddSpec(s: seq<RuleEntry>, input: string, compiles: string -> bool)
    ensures AddPatternTo(s, input, compiles).1 == Added <==>
              Trim(input) != "" && compiles(Trim(input)) && forall i :: 0 <= i < |s| ==> EntryValue(s[i]) != Trim(input)
    ensures AddPatternTo(s, input, compiles).1 == Added ==> AddPatternTo(s, input, compiles).0 == s + [Entry(Trim(input), true)]
    ensures AddPatternTo(s, input, compiles).1 != Added ==> AddPatternTo(s, input, compiles).0 == s
    ensures AddPatternTo(s, input, compiles).1 == Invalid <==> Trim(input) != "" && !compiles(Trim(input))
  {
  }

  /** Adding the same input twice adds it at most once: the second add reports a duplicate. */
  lemma AddTwiceIsDuplicate(s: seq<RuleEntry>, input: string, compiles: string -> bool)
    ensures AddKeywordTo(s, input).1 == Added ==>
              AddKeywordTo(AddKeywordTo(s, input).0, input) == (AddKeywordTo(s, input).0, Duplicate)
    ensures AddPatternTo(s, input, compiles).1 == Added ==>
              AddPatternTo(AddPatternTo(s, input, compiles).0, input, compiles) == (AddPatternTo(s, input, compiles).0, Duplicate)
  {
    var v := Trim(input);
    var k := s + [Entry(v, true)];
    assert k[|s|].Entry? && k[|s|].value == v;
    assert EntryValue(k[|s|]) == v;
  }

  /** The toggle handler: the entry at `i` gets `enabled := checked`, a bare string becomes an object. */
  function Toggle(s: seq<RuleEntry>, i: nat, checked: bool): seq<RuleEntry>
    requires i < |s|
  {
    s[i := Entry(EntryValue(s[i]), checked)]
  }

  /** A toggle keeps the list's length and every value, and changes only the flag at `i`. */
  lemma ToggleSpec(s: seq<RuleEntry>, i: nat, checked: bool)
    requires i < |s|
    ensures |Toggle(s, i, checked)| == |s|
    ensures forall j :: 0 <= j < |s| ==> EntryValue(Toggle(s, i, checked)[j]) == EntryValue(s[j])
    ensures forall j :: 0 <= j < |s| && j != i ==> Toggle(s, i, checked)[j] == s[j]
    ensures Toggle(s, i, checked)[i].Entry? && Toggle(s, i, checked)[i].enabled == checked
    ensures Rules.ActiveValue(Toggle(s, i, checked)[i]) ==
            if checked && EntryValue(s[i]) != "" then Some(EntryValue(s[i])) else None
  {
  }

  // ---------------------------------------------------------------------
  // Domain rule tables: toggle and import merge
  // ---------------------------------------------------------------------

  /** `t[k] = v` on an object: replaces the value in place, or adds the key at the end. */
  function Put(t: DomainTable, k: string, v: DomainRuleSet): (r: DomainTable)
    ensures |r| == |t| || |r| == |t| + 1
  {
    if t == [] then [(k, v)]
    else if t[0].0 == k then [(k, v)] + t[1..]
    else [t[0]] + Put(t[1..], k, v)
  }

  /** A key is in a non-empty table when it is the first key or a key of the rest. */
  lemma HasKeyCons(t: DomainTable, k: string)
    requires t != []
    ensures HasKey(t, k) <==> t[0].0 == k || HasKey(t[1..], k)
  {
    if HasKey(t, k) && t[0].0 != k {
      var i :| 0 <= i < |t| && t[i].0 == k;
      assert t[1..][i - 1].0 == k;
    }
    if HasKey(t[1..], k) {
      var i :| 0 <= i < |t[1..]| && t[1..][i].0 == k;
      assert t[i + 1].0 == k;
    }
  }

  /** In a table without repeated keys, the first key is not a key of the rest. */
  lemma UniqueKeysCons(t: DomainTable)
    requires t != [] && UniqueKeys(t)
    ensures UniqueKeys(t[1..]) && !HasKey(t[1..], t[0].0)
  {
    forall j | 0 <= j < |t[1..]|
      ensures t[1..][j].0 != t[0].0
    {
      assert t[1..][j] == t[j + 1];
    }
  }

  /** `t[k]` is defined exactly for the keys of `t`. */
  lemma {:induction false} LookupHasKey(t: DomainTable, k: string)
    ensures Lookup(t, k).Some? <==> HasKey(t, k)
  {
    if t != [] {
      LookupHasKey(t[1..], k);
      HasKeyCons(t, k);
    }
  }

  /** After `t[k] = v`, `k` reads `v` and other keys read as before. */
  lemma {:induction false} PutLookup(t: DomainTable, k: string, v: DomainRuleSet)
    ensures Lookup(Put(t, k, v), k) == Some(v)
    ensures forall k' :: k' != k ==> Lookup(Put(t, k, v), k') == Lookup(t, k')
  {
    if t != [] && t[0].0 != k {
      PutLookup(t[1..], k, v);
      assert Put(t, k, v)[1..] == Put(t[1..], k, v);
    }
  }

  /** `t[k] = v` adds the key `k` and no other. */
  lemma {:induction false} PutHasKey(t: DomainTable, k: string, v: DomainRuleSet)
    ensures forall k' :: HasKey(Put(t, k, v), k') <==> k' == k || HasKey(t, k')
  {
    var r := Put(t, k, v);
    if t == [] {
      forall k' ensures HasKey(r, k') <==> k' == k {
        HasKeyCons(r, k');
      }
    } else {
      if t[0].0 == k {
        assert r[1..] == t[1..];
      } else {
        PutHasKey(t[1..], k, v);
        assert r[1..] == Put(t[1..], k, v);
      }
      forall k' ensures HasKey(r, k') <==> k' == k || HasKey(t, k') {
        HasKeyCons(r, k');
        HasKeyCons(t, k');
      }
    }
  }

  /** `t[k] = v` keeps every existing key in its place. */
  lemma {:induction false} PutKeys(t: DomainTable, k: string, v: DomainRuleSet)
    ensures Keys(Put(t, k, v))[..|t|] == Keys(t)
  {
    if t != [] && t[0].0 != k {
      PutKeys(t[1..], k, v);
      assert Put(t, k, v)[1..] == Put(t[1..], k, v);
    }
  }

  /** `t[k] = v` never doubles a key. */
  lemma {:induction false} PutUnique(t: DomainTable, k: string, v: DomainRuleSet)
    requires UniqueKeys(t)
    ensures UniqueKeys(Put(t, k, v))
  {
    var r := Put(t, k, v);
    if t != [] {
      UniqueKeysCons(t);
      if t[0].0 == k {
        assert r[1..] == t[1..];
      } else {
        var p := Put(t[1..], k, v);
        PutUnique(t[1..], k, v);
        PutHasKey(t[1..], k, v);
        assert r[1..] == p;
        forall i, j | 0 <= i < j < |r|
          ensures r[i].0 != r[j].0
        {
          if i == 0 {
            assert p[j - 1].0 == r[j].0;
          } else {
            assert p[i - 1] == r[i] && p[j - 1] == r[j];
          }
        }
      }
    }
  }

  /** After `t[k] = v`, `k` reads `v`, other keys read as before, and no key is lost or doubled. */
  lemma PutSpec(t: DomainTable, k: string, v: DomainRuleSet)
    ensures Lookup(Put(t, k, v), k) == Some(v)
    ensures forall k' :: k' != k ==> Lookup(Put(t, k, v), k') == Lookup(t, k')
    ensures forall k' :: HasKey(Put(t, k, v), k') <==> k' == k || HasKey(t, k')
    ensures Keys(Put(t, k, v))[..|t|] == Keys(t)
    ensures UniqueKeys(t) ==> UniqueKeys(Put(t, k, v))
  {
    PutLookup(t, k, v);
    PutHasKey(t, k, v);
    PutKeys(t, k, v);
    if UniqueKeys(t) {
      PutUnique(t, k, v);
    }
  }

  /** `{ ...base, ...imported }`: the entries of `imported`, in order, written over `base`. */
  function Merge(base: DomainTable, imported: DomainTable): DomainTable
    decreases |imported|
  {
    if imported == [] then base else Merge(Put(base, imported[0].0, imported[0].1), imported[1..])
  }

  /**
   * The import merge is shallow: an imported key reads its imported rule
   * set, any other key reads as before, and every key of `base` is kept in
   * its place.
   */
  lemma {:induction false} MergeSpec(base: DomainTable, imported: DomainTable)
    requires UniqueKeys(imported)
    ensures forall k :: HasKey(imported, k) ==> Lookup(Merge(base, imported), k) == Lookup(imported, k)
    ensures forall k :: !HasKey(imported, k) ==> Lookup(Merge(base, imported), k) == Lookup(base, k)
    ensures |base| <= |Merge(base, imported)| && Keys(Merge(base, imported))[..|base|] == Keys(base)
    ensures UniqueKeys(base) ==> UniqueKeys(Merge(base, imported))
  {
    MergeLookup(base, imported);
    MergeKeys(base, imported);
  }

  /** The lookups after a merge. */
  lemma {:induction false} MergeLookup(base: DomainTable, imported: DomainTable)
    requires UniqueKeys(imported)
    ensures forall k :: HasKey(imported, k) ==> Lookup(Merge(base, imported), k) == Lookup(imported, k)
    ensures forall k :: !HasKey(imported, k) ==> Lookup(Merge(base, imported), k) == Lookup(base, k)
    decreases |imported|
  {
    if imported != [] {
      var k0 := imported[0].0;
      var b1 := Put(base, k0, imported[0].1);
      var rest := imported[1..];
      PutSpec(base, k0, imported[0].1);
      UniqueKeysCons(imported);
      MergeLookup(b1, rest);
      forall k | HasKey(imported, k)
        ensures Lookup(Merge(base, imported), k) == Lookup(imported, k)
      {
        HasKeyCons(imported, k);
        LookupHasKey(rest, k);
      }
      forall k | !HasKey(imported, k)
        ensures Lookup(Merge(base, imported), k) == Lookup(base, k)
      {
        HasKeyCons(imported, k);
      }
    }
  }

  /** The keys after a merge: those of `base` first, each once. */
  lemma {:induction false} MergeKeys(base: DomainTable, imported: DomainTable)
    ensures |base| <= |Merge(base, imported)| && Keys(Merge(base, imported))[..|base|] == Keys(base)
    ensures UniqueKeys(base) ==> UniqueKeys(Merge(base, imported))
    decreases |imported|
  {
    if imported != [] {
      var b1 := Put(base, imported[0].0, imported[0].1);
      PutSpec(base, imported[0].0, imported[0].1);
      MergeKeys(b1, imported[1..]);
      assert Keys(Merge(base, imported))[..|base|] == Keys(Merge(b1, imported[1..]))[..|b1|][..|base|];
    }
  }

  /** The domain toggle: `domainRules[key].enabled = checked` on a key the page rendered. */
  function SetDomainEnabled(t: DomainTable, key: string, checked: bool): DomainTable {
    match Lookup(t, key)
    case None => t
    case Some(d) => Put(t, key, d.(enabled := Some(checked)))
  }

  /** The toggle turns the rule set on or off for the content script and changes nothing else. */
  lemma SetDomainEnabledSpec(t: DomainTable, key: string, checked: bool)
    requires Lookup(t, key).Some?
    ensures Lookup(SetDomainEnabled(t, key, checked), key) == Some(Lookup(t, key).value.(enabled := Some(checked)))
    ensures Rules.IsDomainEnabled(Lookup(SetDomainEnabled(t, key, checked), key)) == checked
    ensures forall k :: k != key ==> Lookup(SetDomainEnabled(t, key, checked), k) == Lookup(t, k)
    ensures |SetDomainEnabled(t, key, checked)| == |t|
  {
    var d := Lookup(t, key).value.(enabled := Some(checked));
    assert SetDomainEnabled(t, key, checked) == Put(t, key, d);
    PutLookup(t, key, d);
    PutExistingLength(t, key, d);
  }

  /** Overwriting a key that is present keeps the number of entries. */
  lemma {:induction false} PutExistingLength(t: DomainTable, k: string, v: DomainRuleSet)
    requires Lookup(t, k).Some?
    ensures |Put(t, k, v)| == |t|
  {
    if t[0].0 != k {
      PutExistingLength(t[1..], k, v);
    }
  }

  /**
   * The duplicate check of `addKeyword` (`objectsOnly`, comparing `k.value`
   * of object entries) and of `addPattern` (comparing legacy strings too).
   */
  method FindValue(s: seq<RuleEntry>, v: string, objectsOnly: bool) returns (found: bool)
    ensures found == if objectsOnly then HasObjectValue(s, v) else HasValue(s, v)
  {
    var i := 0;
    while i < |s|
      invariant 0 <= i <= |s|
      invariant objectsOnly ==> forall j :: 0 <= j < i ==> !(s[j].Entry? && s[j].value == v)
      invariant !objectsOnly ==> forall j :: 0 <= j < i ==> EntryValue(s[j]) != v
    {
      if (if objectsOnly then s[i].Entry? && s[i].value == v else EntryValue(s[i]) == v) {
        return true;
      }
      i := i + 1;
    }
    return false;
  }

  /** The checks of `addKeyword`: trim, reject an empty value or a duplicate object entry, else append. */
  method CheckKeyword(keywords: seq<RuleEntry>, input: string) returns (r: seq<RuleEntry>, outcome: AddOutcome)
    ensures (r, outcome) == AddKeywordTo(keywords, input)
  {
    r := keywords;
    var value := Trim(input);
    if value == "" {
      return r, EmptyInput;
    }
    var duplicate := FindValue(keywords, value, true);
    if duplicate {
      return r, Duplicate;
    }
    return keywords + [Entry(value, true)], Added;
  }

  /** The checks of `addPattern`: as for a keyword, and an invalid regex is refused before the duplicate check. */
  method CheckPattern(patterns: seq<RuleEntry>, input: string, compiles: string -> bool)
    returns (r: seq<RuleEntry>, outcome: AddOutcome)
    ensures (r, outcome) == AddPatternTo(patterns, input, compiles)
  {
    r := patterns;
    var value := Trim(input);
    if value == "" {
      return r, EmptyInput;
    }
    if !compiles(value) {
      return r, Invalid;
    }
    var duplicate := FindValue(patterns, value, false);
    if duplicate {
      return r, Duplicate;
    }
    return patterns + [Entry(value, true)], Added;
  }

  // ---------------------------------------------------------------------
  // Objects shared with SUPPORTED_DOMAINS
  // ---------------------------------------------------------------------

  /**
   * The domain side of the options page: `domainRules`, the
   * `SUPPORTED_DOMAINS` object as the page holds it (`builtIn`), and the
   * keys whose `domainRules` entry is the very entry object of that
   * constant (`shared`), so that writing into one writes into the other.
   */
  datatype DomainPage = DomainPage(rules: DomainTable, builtIn: DomainTable, shared: set<string>)

  /** What sharing means: a shared key names one entry, present in both tables. */
  predicate DomainsAliased(p: DomainPage) {
    forall k :: k in p.shared ==> Lookup(p.builtIn, k).Some? && Lookup(p.rules, k) == Lookup(p.builtIn, k)
  }

  /** The keys of a table. */
  function KeySet(t: DomainTable): (ks: set<string>)
    ensures forall k :: k in ks <==> HasKey(t, k)
  {
    set i | 0 <= i < |t| :: t[i].0
  }

  lemma LookupHasKeyAll(t: DomainTable)
    ensures forall k :: Lookup(t, k).Some? <==> HasKey(t, k)
  {
    forall k {
      LookupHasKey(t, k);
    }
  }

  /**
   * `(await getDomainRules()) || SUPPORTED_DOMAINS` in `loadRules`: the
   * stored table, or else the constant itself, every entry shared.
   * Loading never changes the constant, and the sharing it sets up is
   * the one `DomainsAliased` describes.
   */
  function LoadDomains(p: DomainPage, stored: Option<DomainTable>): (r: DomainPage)
    ensures r.builtIn == p.builtIn && DomainsAliased(r)
    ensures stored.Some? ==> r.shared == {}
    ensures stored.None? ==> forall k :: k in r.shared <==> Lookup(p.builtIn, k).Some?
  {
    LookupHasKeyAll(p.builtIn);
    match stored
    case Some(t) => p.(rules := t, shared := {})
    case None => p.(rules := p.builtIn, shared := KeySet(p.builtIn))
  }

  /**
   * The domain card toggle, `domainRules[key].enabled = checked`: on a
   * shared entry the write lands in `SUPPORTED_DOMAINS` as well.
   */
  function ToggleDomainIn(p: DomainPage, key: string, checked: bool): (r: DomainPage)
    ensures r.shared == p.shared
    ensures key !in p.shared ==> r.builtIn == p.builtIn
  {
    DomainPage(SetDomainEnabled(p.rules, key, checked),
               if key in p.shared then SetDomainEnabled(p.builtIn, key, checked) else p.builtIn,
               p.shared)
  }

  /** The toggle keeps the sharing, and on a shared key the constant now holds the toggled entry. */
  lemma ToggleDomainKeepsAliasing(p: DomainPage, key: string, checked: bool)
    requires DomainsAliased(p) && Lookup(p.rules, key).Some?
    ensures var r := ToggleDomainIn(p, key, checked);
            DomainsAliased(r) &&
            Lookup(r.rules, key) == Some(Lookup(p.rules, key).value.(enabled := Some(checked))) &&
            (key in p.shared ==> Lookup(r.builtIn, key) == Lookup(r.rules, key))
  {
    SetDomainEnabledSpec(p.rules, key, checked);
    if key in p.shared {
      SetDomainEnabledSpec(p.builtIn, key, checked);
    }
  }

  /**
   * The domain part of `handleImport`, `{ ...domainRules, ...imported }`:
   * the imported entries are fresh objects, so their keys stop being
   * shared; the other entries keep theirs.
   */
  function ImportDomains(p: DomainPage, imported: DomainTable): (r: DomainPage)
    ensures r.builtIn == p.builtIn && r.shared <= p.shared
    ensures forall k :: k in p.shared && !HasKey(imported, k) ==> k in r.shared
  {
    DomainPage(Merge(p.rules, imported), p.builtIn, p.shared - KeySet(imported))
  }

  lemma ImportDomainsKeepsAliasing(p: DomainPage, imported: DomainTable)
    requires DomainsAliased(p) && UniqueKeys(imported)
    ensures DomainsAliased(ImportDomains(p, imported))
  {
    MergeLookup(p.rules, imported);
  }

  /**
   * `resetToDefaults`, `JSON.parse(JSON.stringify(SUPPORTED_DOMAINS))`: a
   * copy of the constant as it now stands, nothing shared.  Every entry
   * that was shared comes back as it was, toggles included.
   */
  function ResetDomains(p: DomainPage): (r: DomainPage)
    ensures r.builtIn == p.builtIn && r.shared == {}
    ensures DomainsAliased(p) ==> forall k :: k in p.shared ==> Lookup(r.rules, k) == Lookup(p.rules, k)
  {
    DomainPage(p.builtIn, p.builtIn, {})
  }

  /** The page actions on the domain table, for stating what a session does. */
  datatype DomainAction = ToggleAction(key: string, checked: bool) | ImportAction(table: DomainTable) | ResetAction

  function Perform(p: DomainPage, a: DomainAction): DomainPage {
    match a
    case ToggleAction(key, checked) => ToggleDomainIn(p, key, checked)
    case ImportAction(t) => ImportDomains(p, t)
    case ResetAction => ResetDomains(p)
  }

  /** The actions in order. */
  function PerformAll(p: DomainPage, actions: seq<DomainAction>): DomainPage
    decreases |actions|
  {
    if actions == [] then p else PerformAll(Perform(p, actions[0]), actions[1..])
  }

  /**
   * As written: with no stored table, turning `google` off and then
   * resetting to the defaults leaves `google` off, although the built-in
   * entry is on, because the toggle wrote into `SUPPORTED_DOMAINS` and the
   * reset copies it.
   */
  lemma ResetAfterFreshToggleKeepsToggle()
    ensures var p := LoadDomains(DomainPage([], SupportedDomains, {}), None);
            var r := PerformAll(p, [ToggleAction("google", false), ResetAction]);
            Rules.IsDomainEnabled(Lookup(SupportedDomains, "google")) &&
            !Rules.IsDomainEnabled(Lookup(r.rules, "google"))
  {
    var p := LoadDomains(DomainPage([], SupportedDomains, {}), None);
    assert Lookup(SupportedDomains, "google") == Some(SupportedDomains[0].1);
    assert "google" in p.shared;
    ToggleDomainKeepsAliasing(p, "google", false);
    var t := ToggleDomainIn(p, "google", false);
    assert PerformAll(p, [ToggleAction("google", false), ResetAction]) == PerformAll(t, [ResetAction]);
    assert PerformAll(t, [ResetAction]) == ResetDomains(t);
  }

  /** Corrected: `loadRules` taking a copy of the built-in table, so that nothing is shared. */
  function LoadDomainsCopy(p: DomainPage, stored: Option<DomainTable>): (r: DomainPage)
    ensures r.builtIn == p.builtIn && r.shared == {}
    ensures stored.Some? ==> r.rules == stored.value
    ensures stored.None? ==> r.rules == p.builtIn
  {
    p.(rules := stored.GetOr(p.builtIn), shared := {})
  }

  /** With nothing shared, no sequence of toggles, imports and resets changes the built-in table. */
  lemma {:induction false} UnsharedKeepsBuiltIn(p: DomainPage, actions: seq<DomainAction>)
    requires p.shared == {}
    ensures PerformAll(p, actions).builtIn == p.builtIn && PerformAll(p, actions).shared == {}
    decreases |actions|
  {
    if actions != [] {
      UnsharedKeepsBuiltIn(Perform(p, actions[0]), actions[1..]);
    }
  }

  /**
   * Corrected: after a copying load, a reset at the end of any session
   * restores the built-in table exactly.
   */
  lemma CopiedLoadResetRestores(p: DomainPage, stored: Option<DomainTable>, actions: seq<DomainAction>)
    ensures ResetDomains(PerformAll(LoadDomainsCopy(p, stored), actions)).rules == p.builtIn
  {
    UnsharedKeepsBuiltIn(LoadDomainsCopy(p, stored), actions);
  }

  // ---------------------------------------------------------------------
  // The options page state
  // ---------------------------------------------------------------------

  /** What `saveRules` leaves in the store: both keys written, unless the store fails. */
  function Saved(m: map<string, Storage.Value>, faulty: bool, u: UserRules, d: DomainTable): map<string, Storage.Value> {
    if faulty then m else m[UserRulesKey := Storage.RulesV(u)][DomainRulesKey := Storage.DomainsV(d)]
  }

  /** Saving twice leaves what the second save wrote. */
  lemma SavedTwice(m: map<string, Storage.Value>, faulty: bool, u1: UserRules, u2: UserRules, d: DomainTable)
    ensures Saved(Saved(m, faulty, u1, d), faulty, u2, d) == Saved(m, faulty, u2, d)
  {
    if !faulty {
      var a := Saved(Saved(m, faulty, u1, d), faulty, u2, d);
      var b := Saved(m, faulty, u2, d);
      assert a.Keys == b.Keys;
      assert forall k :: k in a ==> a[k] == b[k];
    }
  }

  class OptionsPage {
    const storage: Storage.StorageManager
    const compiles: string -> bool
    var userRules: UserRules
    var domainRules: DomainTable
    var selectedKeywords: set<nat>
    var selectedPatterns: set<nat>
    /** `SUPPORTED_DOMAINS` as this page holds it; toggles of shared entries change it. */
    var builtIn: DomainTable
    /** The keys whose `domainRules` entry is the entry object of `SUPPORTED_DOMAINS`. */
    var sharedDomains: set<string>
    /** `DEFAULT_USER_RULES` as this page holds it. */
    var defaultRules: UserRules
    /** Whether `userRules` is the `DEFAULT_USER_RULES` object itself. */
    var rulesShared: bool

    function Domains(): DomainPage
      reads this
    {
      DomainPage(domainRules, builtIn, sharedDomains)
    }

    /** The store is well typed, and the shared objects agree with what shares them. */
    ghost predicate Valid()
      reads this, storage
    {
      storage.Valid() && DomainsAliased(Domains()) && (rulesShared ==> userRules == defaultRules)
    }

    /** The module state before `init`: nothing is shared yet. */
    constructor (s: Storage.StorageManager, c: string -> bool)
      requires s.Valid()
      ensures storage == s && compiles == c && Valid()
      ensures userRules == UserRules([], []) && domainRules == [] && selectedKeywords == {} && selectedPatterns == {}
      ensures builtIn == SupportedDomains && sharedDomains == {} && defaultRules == DefaultUserRules && !rulesShared
    {
      storage := s;
      compiles := c;
      userRules := UserRules([], []);
      domainRules := [];
      selectedKeywords := {};
      selectedPatterns := {};
      builtIn := SupportedDomains;
      sharedDomains := {};
      defaultRules := DefaultUserRules;
      rulesShared := false;
    }

    /** An assignment into `userRules` in place: while it is `DEFAULT_USER_RULES`, the constant changes too. */
    method WriteRules(u: UserRules)
      modifies this`userRules, this`defaultRules
      ensures userRules == u && defaultRules == if rulesShared then u else old(defaultRules)
    {
      userRules := u;
      if rulesShared {
        defaultRules := u;
      }
    }

    /** `saveRules()`. */
    method SaveRules()
      requires Valid()
      modifies storage`store
      ensures Valid()
      ensures storage.store == Saved(old(storage.store), storage.faulty, userRules, domainRules)
    {
      var _ := storage.SetUserRules(userRules);
      var _ := storage.SetDomainRules(domainRules);
    }

    /**
     * `loadRules()`: read both rule stores, then migrate each list that
     * starts with a bare string, saving after each migration.  With no
     * stored rules, `userRules` is `DEFAULT_USER_RULES` itself; with no
     * stored table, `domainRules` is `SUPPORTED_DOMAINS` itself.
     */
    method LoadRules()
      requires Valid()
      modifies this`userRules, this`domainRules, this`sharedDomains, this`defaultRules, this`rulesShared, storage`store
      ensures Valid()
      ensures rulesShared == (storage.faulty || UserRulesKey !in old(storage.store))
      ensures var stored := if rulesShared then old(defaultRules) else Storage.UserRulesIn(old(storage.store));
              userRules == UserRules(Migrate(stored.keywords), Migrate(stored.patterns)) &&
              storage.store == if userRules == stored then old(storage.store)
                               else Saved(old(storage.store), storage.faulty, userRules, domainRules)
      ensures defaultRules == if rulesShared then userRules else old(defaultRules)
      ensures Domains() == LoadDomains(old(Domains()), Storage.DomainRulesIn(if storage.faulty then map[] else old(storage.store)))
    {
      ReadRules();
      MigrateRules();
    }

    /** The two reads of `loadRules`. */
    method ReadRules()
      requires Valid()
      modifies this`userRules, this`domainRules, this`sharedDomains, this`rulesShared
      ensures Valid()
      ensures rulesShared == (storage.faulty || UserRulesKey !in storage.store)
      ensures userRules == if rulesShared then defaultRules else Storage.UserRulesIn(storage.store)
      ensures Domains() == LoadDomains(old(Domains()), Storage.DomainRulesIn(if storage.faulty then map[] else storage.store))
    {
      var rules := storage.GetUserRules();
      rulesShared := storage.faulty || UserRulesKey !in storage.store;
      if rulesShared {
        rules := defaultRules;
      }
      userRules := rules;
      var stored := storage.GetDomainRules();
      domainRules := stored.GetOr(builtIn);
      sharedDomains := if stored.Some? then {} else KeySet(builtIn);
      assert Domains() == LoadDomains(old(Domains()), stored);
    }

    /** The migrations of `loadRules`, each saved. */
    method MigrateRules()
      requires Valid()
      modifies this`userRules, this`defaultRules, storage`store
      ensures Valid()
      ensures userRules == UserRules(Migrate(old(userRules).keywords), Migrate(old(userRules).patterns))
      ensures storage.store == if userRules == old(userRules) then old(storage.store)
                               else Saved(old(storage.store), storage.faulty, userRules, domainRules)
      ensures defaultRules == if rulesShared then userRules else old(defaultRules)
    {
      if |userRules.keywords| > 0 && userRules.keywords[0].Legacy? {
        WriteRules(userRules.(keywords := Migrate(userRules.keywords)));
        SaveRules();
      }
      if |userRules.patterns| > 0 && userRules.patterns[0].Legacy? {
        ghost var u1 := userRules;
        WriteRules(userRules.(patterns := Migrate(userRules.patterns)));
        SaveRules();
        SavedTwice(old(storage.store), storage.faulty, u1, userRules, domainRules);
      }
      assert userRules == old(userRules) <==>
             userRules.keywords == old(userRules).keywords && userRules.patterns == old(userRules).patterns;
    }

    /**
     * `resetToDefaults()` for the rule state: copies of `DEFAULT_USER_RULES`
     * and `SUPPORTED_DOMAINS` as they now stand, saved.  Rules that were
     * still those objects come back unchanged, edits included.
     */
    method ResetToDefaults()
      requires Valid()
      modifies this`userRules, this`domainRules, this`sharedDomains, this`rulesShared, storage`store
      ensures Valid()
      ensures userRules == old(defaultRules) && !rulesShared && Domains() == ResetDomains(old(Domains()))
      ensures old(rulesShared) ==> userRules == old(userRules)
      ensures forall k :: k in old(sharedDomains) ==> Lookup(domainRules, k) == Lookup(old(domainRules), k)
      ensures storage.store == Saved(old(storage.store), storage.faulty, userRules, domainRules)
    {
      userRules := defaultRules;
      rulesShared := false;
      domainRules := builtIn;
      sharedDomains := {};
      SaveRules();
    }

    /** `addKeyword(input)`: saves only when the keyword was appended. */
    method AddKeyword(input: string) returns (outcome: AddOutcome)
      requires Valid()
      modifies this`userRules, this`defaultRules, storage`store
      ensures Valid()
      ensures (userRules.keywords, outcome) == AddKeywordTo(old(userRules.keywords), input)
      ensures userRules.patterns == old(userRules.patterns)
      ensures defaultRules == if rulesShared then userRules else old(defaultRules)
      ensures storage.store == if outcome == Added then Saved(old(storage.store), storage.faulty, userRules, domainRules)
                               else old(storage.store)
    {
      var keywords;
      keywords, outcome := CheckKeyword(userRules.keywords, input);
      if outcome == Added {
        WriteRules(userRules.(keywords := keywords));
        SaveRules();
      }
    }

    /** `addPattern(input)`: saves only when the pattern was appended. */
    method AddPattern(input: string) returns (outcome: AddOutcome)
      requires Valid()
      modifies this`userRules, this`defaultRules, storage`store
      ensures Valid()
      ensures (userRules.patterns, outcome) == AddPatternTo(old(userRules.patterns), input, compiles)
      ensures userRules.keywords == old(userRules.keywords)
      ensures defaultRules == if rulesShared then userRules else old(defaultRules)
      ensures storage.store == if outcome == Added then Saved(old(storage.store), storage.faulty, userRules, domainRules)
                               else old(storage.store)
    {
      var patterns;
      patterns, outcome := CheckPattern(userRules.patterns, input, compiles);
      if outcome == Added {
        WriteRules(userRules.(patterns := patterns));
        SaveRules();
      }
    }

    /** `deleteKeyword(index)`: one splice, the selection cleared, the rules saved. */
    method DeleteKeyword(index: nat)
      requires Valid()
      modifies this`userRules, this`defaultRules, this`selectedKeywords, storage`store
      ensures Valid()
      ensures userRules == old(userRules).(keywords := Splice(old(userRules.keywords), index))
      ensures selectedKeywords == {}
      ensures defaultRules == if rulesShared then userRules else old(defaultRules)
      ensures storage.store == Saved(old(storage.store), storage.faulty, userRules, domainRules)
    {
      WriteRules(userRules.(keywords := Splice(userRules.keywords, index)));
      selectedKeywords := {};
      SaveRules();
    }

    /** `deletePattern(index)`. */
    method DeletePattern(index: nat)
      requires Valid()
      modifies this`userRules, this`defaultRules, this`selectedPatterns, storage`store
      ensures Valid()
      ensures userRules == old(userRules).(patterns := Splice(old(userRules.patterns), index))
      ensures selectedPatterns == {}
      ensures defaultRules == if rulesShared then userRules else old(defaultRules)
      ensures storage.store == Saved(old(storage.store), storage.faulty, userRules, domainRules)
    {
      WriteRules(userRules.(patterns := Splice(userRules.patterns, index)));
      selectedPatterns := {};
      SaveRules();
    }

    /** The delete button of the card at `pos` of the keyword list filtered by `filter` (corrected index). */
    method DeleteKeywordCard(filter: string, pos: nat)
      requires Valid() && pos < |Filter(userRules.keywords, filter)|
      modifies this`userRules, this`defaultRules, this`selectedKeywords, storage`store
      ensures Valid()
      ensures userRules.keywords == Splice(old(userRules.keywords), CardIndex(old(userRules.keywords), filter, pos))
      ensures userRules.patterns == old(userRules.patterns) && selectedKeywords == {}
      ensures defaultRules == if rulesShared then userRules else old(defaultRules)
      ensures storage.store == Saved(old(storage.store), storage.faulty, userRules, domainRules)
    {
      DeleteKeyword(CardIndex(userRules.keywords, filter, pos));
    }

    /** The delete button of the card at `pos` of the pattern list filtered by `filter` (corrected index). */
    method DeletePatternCard(filter: string, pos: nat)
      requires Valid() && pos < |Filter(userRules.patterns, filter)|
      modifies this`userRules, this`defaultRules, this`selectedPatterns, storage`store
      ensures Valid()
      ensures userRules.patterns == Splice(old(userRules.patterns), CardIndex(old(userRules.patterns), filter, pos))
      ensures userRules.keywords == old(userRules.keywords) && selectedPatterns == {}
      ensures defaultRules == if rulesShared then userRules else old(defaultRules)
      ensures storage.store == Saved(old(storage.store), storage.faulty, userRules, domainRules)
    {
      DeletePattern(CardIndex(userRules.patterns, filter, pos));
    }

    /** `deleteBulkKeywords()`. */
    method DeleteBulkKeywords() returns (count: nat)
      requires Valid()
      modifies this`userRules, this`defaultRules, this`selectedKeywords, storage`store
      ensures Valid()
      ensures userRules == old(userRules).(keywords := Without(old(userRules.keywords), old(selectedKeywords)))
      ensures selectedKeywords == {} && count == |old(selectedKeywords)|
      ensures defaultRules == if rulesShared then userRules else old(defaultRules)
      ensures storage.store == Saved(old(storage.store), storage.faulty, userRules, domainRules)
    {
      var kept := DeleteSelected(userRules.keywords, selectedKeywords);
      count := |selectedKeywords|;
      WriteRules(userRules.(keywords := kept));
      selectedKeywords := {};
      SaveRules();
    }

    /** `deleteBulkPatterns()`. */
    method DeleteBulkPatterns() returns (count: nat)
      requires Valid()
      modifies this`userRules, this`defaultRules, this`selectedPatterns, storage`store
      ensures Valid()
      ensures userRules == old(userRules).(patterns := Without(old(userRules.patterns), old(selectedPatterns)))
      ensures selectedPatterns == {} && count == |old(selectedPatterns)|
      ensures defaultRules == if rulesShared then userRules else old(defaultRules)
      ensures storage.store == Saved(old(storage.store), storage.faulty, userRules, domainRules)
    {
      var kept := DeleteSelected(userRules.patterns, selectedPatterns);
      count := |selectedPatterns|;
      WriteRules(userRules.(patterns := kept));
      selectedPatterns := {};
      SaveRules();
    }

    /** The keyword toggle of a rendered card. */
    method ToggleKeyword(index: nat, checked: bool)
      requires Valid() && index < |userRules.keywords|
      modifies this`userRules, this`defaultRules, storage`store
      ensures Valid()
      ensures userRules == old(userRules).(keywords := Toggle(old(userRules.keywords), index, checked))
      ensures defaultRules == if rulesShared then userRules else old(defaultRules)
      ensures storage.store == Saved(old(storage.store), storage.faulty, userRules, domainRules)
    {
      WriteRules(userRules.(keywords := userRules.keywords[index := Entry(EntryValue(userRules.keywords[index]), checked)]));
      SaveRules();
    }

    /** The pattern toggle of a rendered card. */
    method TogglePattern(index: nat, checked: bool)
      requires Valid() && index < |userRules.patterns|
      modifies this`userRules, this`defaultRules, storage`store
      ensures Valid()
      ensures userRules == old(userRules).(patterns := Toggle(old(userRules.patterns), index, checked))
      ensures defaultRules == if rulesShared then userRules else old(defaultRules)
      ensures storage.store == Saved(old(storage.store), storage.faulty, userRules, domainRules)
    {
      WriteRules(userRules.(patterns := userRules.patterns[index := Entry(EntryValue(userRules.patterns[index]), checked)]));
      SaveRules();
    }

    /** The toggle of the card at `pos` of the keyword list filtered by `filter` (corrected index). */
    method ToggleKeywordCard(filter: string, pos: nat, checked: bool)
      requires Valid() && pos < |Filter(userRules.keywords, filter)|
      modifies this`userRules, this`defaultRules, storage`store
      ensures Valid()
      ensures userRules.keywords == Toggle(old(userRules.keywords), CardIndex(old(userRules.keywords), filter, pos), checked)
      ensures userRules.patterns == old(userRules.patterns)
      ensures defaultRules == if rulesShared then userRules else old(defaultRules)
      ensures storage.store == Saved(old(storage.store), storage.faulty, userRules, domainRules)
    {
      ToggleKeyword(CardIndex(userRules.keywords, filter, pos), checked);
    }

    /** The toggle of the card at `pos` of the pattern list filtered by `filter` (corrected index). */
    method TogglePatternCard(filter: string, pos: nat, checked: bool)
      requires Valid() && pos < |Filter(userRules.patterns, filter)|
      modifies this`userRules, this`defaultRules, storage`store
      ensures Valid()
      ensures userRules.patterns == Toggle(old(userRules.patterns), CardIndex(old(userRules.patterns), filter, pos), checked)
      ensures userRules.keywords == old(userRules.keywords)
      ensures defaultRules == if rulesShared then userRules else old(defaultRules)
      ensures storage.store == Saved(old(storage.store), storage.faulty, userRules, domainRules)
    {
      TogglePattern(CardIndex(userRules.patterns, filter, pos), checked);
    }

    /**
     * The drop handler on the unfiltered keyword list (`ruleType` is
     * `keywords`).  `onDragged` is a drop on the card being dragged, which
     * returns before anything changes; `from` is the `parseInt` of the
     * dragged text (`None` for `NaN`) and `to` the target card's index.
     */
    method DropKeyword(onDragged: bool, from: Option<int>, to: nat)
      requires Valid()
      requires !onDragged ==> SpliceStart(|userRules.keywords|, from) < |userRules.keywords|
      modifies this`userRules, this`defaultRules, storage`store
      ensures Valid()
      ensures onDragged ==> userRules == old(userRules) && storage.store == old(storage.store)
      ensures !onDragged ==>
                userRules == old(userRules).(keywords := Move(old(userRules.keywords),
                                                              SpliceStart(|old(userRules.keywords)|, from), to)) &&
                storage.store == Saved(old(storage.store), storage.faulty, userRules, domainRules)
      ensures defaultRules == if rulesShared then userRules else old(defaultRules)
    {
      if onDragged {
        return;
      }
      var list := userRules.keywords;
      var start := SpliceStart(|list|, from);
      var moved := list[start];
      list := Splice(list, start);
      list := InsertAt(list, to, moved);
      WriteRules(userRules.(keywords := list));
      SaveRules();
    }

    /** The drop handler on the unfiltered pattern list. */
    method DropPattern(onDragged: bool, from: Option<int>, to: nat)
      requires Valid()
      requires !onDragged ==> SpliceStart(|userRules.patterns|, from) < |userRules.patterns|
      modifies this`userRules, this`defaultRules, storage`store
      ensures Valid()
      ensures onDragged ==> userRules == old(userRules) && storage.store == old(storage.store)
      ensures !onDragged ==>
                userRules == old(userRules).(patterns := Move(old(userRules.patterns),
                                                              SpliceStart(|old(userRules.patterns)|, from), to)) &&
                storage.store == Saved(old(storage.store), storage.faulty, userRules, domainRules)
      ensures defaultRules == if rulesShared then userRules else old(defaultRules)
    {
      if onDragged {
        return;
      }
      var list := userRules.patterns;
      var start := SpliceStart(|list|, from);
      var moved := list[start];
      list := Splice(list, start);
      list := InsertAt(list, to, moved);
      WriteRules(userRules.(patterns := list));
      SaveRules();
    }

    /** The domain card toggle: a shared entry is toggled in `SUPPORTED_DOMAINS` as well. */
    method ToggleDomain(key: string, checked: bool)
      requires Valid() && Lookup(domainRules, key).Some?
      modifies this`domainRules, this`builtIn, storage`store
      ensures Valid()
      ensures Domains() == ToggleDomainIn(old(Domains()), key, checked)
      ensures storage.store == Saved(old(storage.store), storage.faulty, userRules, domainRules)
    {
      ToggleDomainKeepsAliasing(Domains(), key, checked);
      domainRules := SetDomainEnabled(domainRules, key, checked);
      if key in sharedDomains {
        builtIn := SetDomainEnabled(builtIn, key, checked);
      }
      SaveRules();
    }

    /**
     * `handleImport` after the file is read: an unreadable or non-object
     * file changes nothing; otherwise the present parts are adopted and
     * saved.  Imported rules are a fresh object, so they end any sharing
     * with `DEFAULT_USER_RULES`.
     */
    method HandleImport(parsed: Option<Helpers.Parsed>) returns (ok: bool)
      requires Valid()
      requires parsed.Some? && parsed.value.PObject? && parsed.value.data.domainRules.Some? ==>
                 UniqueKeys(parsed.value.data.domainRules.value)
      modifies this`userRules, this`domainRules, this`sharedDomains, this`rulesShared, storage`store
      ensures Valid()
      ensures ok == Helpers.ParseImportData(parsed).Some?
      ensures !ok ==> userRules == old(userRules) && Domains() == old(Domains()) && rulesShared == old(rulesShared) &&
                      storage.store == old(storage.store)
      ensures ok ==>
                var data := Helpers.ParseImportData(parsed).value;
                userRules == data.userRules.GetOr(old(userRules)) &&
                rulesShared == (old(rulesShared) && data.userRules.None?) &&
                Domains() == (if data.domainRules.Some? then ImportDomains(old(Domains()), data.domainRules.value)
                              else old(Domains())) &&
                storage.store == Saved(old(storage.store), storage.faulty, userRules, domainRules)
    {
      var data := Helpers.ParseImportData(parsed);
      if data.None? {
        return false;
      }
      if data.value.userRules.Some? {
        userRules := data.value.userRules.value;
        rulesShared := false;
      }
      if data.value.domainRules.Some? {
        ImportDomainsKeepsAliasing(Domains(), data.value.domainRules.value);
        domainRules := Merge(domainRules, data.value.domainRules.value);
        sharedDomains := sharedDomains - KeySet(data.value.domainRules.value);
      }
      SaveRules();
      return true;
    }
  }
}
