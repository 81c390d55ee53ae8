/**
 * StorageManager of src/utils/storage.js: typed accessors over the
 * extension's local key-value store.  The store is a map field; `faulty`
 * stands for the host storage API rejecting every call, which each accessor
 * catches and turns into an empty object, `false` or a default value.
 */
module Storage {
  import opened Types
  import opened Constants

  /** A stored JSON value, one shape per key the core writes. */
  datatype Value =
    | BoolV(b: bool)
    | NumV(n: int)
    | RulesV(rules: UserRules)
    | DomainsV(table: DomainTable)
    | ItemsV(items: seq<string>)

  /** Each key the core reads holds the shape its typed accessor writes. */
  predicate WellTyped(m: map<string, Value>) {
    && (IsPausedKey in m ==> m[IsPausedKey].BoolV?)
    && (HiddenCountKey in m ==> m[HiddenCountKey].NumV?)
    && (HiddenItemsKey in m ==> m[HiddenItemsKey].ItemsV?)
    && (UserRulesKey in m ==> m[UserRulesKey].RulesV?)
    && (DomainRulesKey in m ==> m[DomainRulesKey].DomainsV?)
  }

  /** `result[IS_PAUSED] || false` on a read result. */
  function PausedIn(m: map<string, Value>): bool
    requires WellTyped(m)
  {
    IsPausedKey in m && m[IsPausedKey].b
  }

  /** `result[USER_RULES] || DEFAULT_USER_RULES`. */
  function UserRulesIn(m: map<string, Value>): UserRules
    requires WellTyped(m)
  {
    if UserRulesKey in m then m[UserRulesKey].rules else DefaultUserRules
  }

  /** `result[DOMAIN_RULES] || null`; any stored object, even `{}`, is truthy. */
  function DomainRulesIn(m: map<string, Value>): Option<DomainTable>
    requires WellTyped(m)
  {
    if DomainRulesKey in m then Some(m[DomainRulesKey].table) else None
  }

  /** `result[HIDDEN_COUNT] || 0`. */
  function HiddenCountIn(m: map<string, Value>): int
    requires WellTyped(m)
  {
    if HiddenCountKey in m then m[HiddenCountKey].n else 0
  }

  /** `result[HIDDEN_ITEMS] || []`. */
  function HiddenItemsIn(m: map<string, Value>): seq<string>
    requires WellTyped(m)
  {
    if HiddenItemsKey in m then m[HiddenItemsKey].items else []
  }

  /** What `initialize` leaves in a store it can reach. */
  function Seeded(m: map<string, Value>): map<string, Value> {
    if UserRulesKey in m then m
    else m[UserRulesKey := RulesV(DefaultUserRules)][IsPausedKey := BoolV(false)]
  }

  /** Seeding an already seeded store changes nothing, so `initialize` is idempotent. */
  lemma SeededIdempotent(m: map<string, Value>)
    ensures Seeded(Seeded(m)) == Seeded(m)
    ensures UserRulesKey in Seeded(m)
    ensures UserRulesKey in m ==> Seeded(m) == m
  {
  }

  /** Writing a value and reading it back on a well-typed store gives the value. */
  lemma ReadAfterWrite(m: map<string, Value>, paused: bool, rules: UserRules, table: DomainTable)
    requires WellTyped(m)
    ensures WellTyped(m[IsPausedKey := BoolV(paused)]) && PausedIn(m[IsPausedKey := BoolV(paused)]) == paused
    ensures WellTyped(m[UserRulesKey := RulesV(rules)]) && UserRulesIn(m[UserRulesKey := RulesV(rules)]) == rules
    ensures WellTyped(m[DomainRulesKey := DomainsV(table)]) &&
            DomainRulesIn(m[DomainRulesKey := DomainsV(table)]) == Some(table)
  {
  }

  class StorageManager {
    var store: map<string, Value>
    var faulty: bool

    ghost predicate Valid()
      reads this
    {
      WellTyped(store)
    }

    constructor (initial: map<string, Value>, failing: bool)
      requires WellTyped(initial)
      ensures Valid() && store == initial && faulty == failing
    {
      store := initial;
      faulty := failing;
    }

    /** `get(keys)`: the stored entries for `keys`, or `{}` when the store fails. */
    method Get(keys: set<string>) returns (r: map<string, Value>)
      requires Valid()
      ensures WellTyped(r)
      ensures forall k :: k in r <==> !faulty && k in keys && k in store
      ensures forall k :: k in r ==> r[k] == store[k]
    {
      if faulty {
        r := map[];
      } else {
        r := map k | k in keys && k in store :: store[k];
      }
    }

    /** `set(items)`: merges `items` into the store; `false` when the store fails. */
    method Set(items: map<string, Value>) returns (ok: bool)
      requires Valid() && WellTyped(items)
      modifies this`store
      ensures Valid()
      ensures ok == !faulty
      ensures store == if ok then old(store) + items else old(store)
    {
      if faulty {
        ok := false;
      } else {
        store := store + items;
        ok := true;
      }
    }

    /** `remove(keys)`: deletes `keys`; `false` when the store fails. */
    method Remove(keys: set<string>) returns (ok: bool)
      requires Valid()
      modifies this`store
      ensures Valid()
      ensures ok == !faulty
      ensures store == if ok then old(store) - keys else old(store)
    {
      if faulty {
        ok := false;
      } else {
        store := store - keys;
        ok := true;
      }
    }

    method GetIsPaused() returns (paused: bool)
      requires Valid()
      ensures paused == (!faulty && IsPausedKey in store && store[IsPausedKey].b)
    {
      var result := Get({IsPausedKey});
      paused := PausedIn(result);
    }

    method SetIsPaused(paused: bool) returns (ok: bool)
      requires Valid()
      modifies this`store
      ensures Valid() && ok == !faulty
      ensures store == if ok then old(store)[IsPausedKey := BoolV(paused)] else old(store)
    {
      ok := Set(map[IsPausedKey := BoolV(paused)]);
    }

    method GetUserRules() returns (rules: UserRules)
      requires Valid()
      ensures rules == if !faulty && UserRulesKey in store then store[UserRulesKey].rules else DefaultUserRules
    {
      var result := Get({UserRulesKey});
      rules := UserRulesIn(result);
    }

    method SetUserRules(rules: UserRules) returns (ok: bool)
      requires Valid()
      modifies this`store
      ensures Valid() && ok == !faulty
      ensures store == if ok then old(store)[UserRulesKey := RulesV(rules)] else old(store)
    {
      ok := Set(map[UserRulesKey := RulesV(rules)]);
    }

    method GetDomainRules() returns (table: Option<DomainTable>)
      requires Valid()
      ensures table == if !faulty && DomainRulesKey in store then Some(store[DomainRulesKey].table) else None
    {
      var result := Get({DomainRulesKey});
      table := DomainRulesIn(result);
    }

    method SetDomainRules(table: DomainTable) returns (ok: bool)
      requires Valid()
      modifies this`store
      ensures Valid() && ok == !faulty
      ensures store == if ok then old(store)[DomainRulesKey := DomainsV(table)] else old(store)
    {
      ok := Set(map[DomainRulesKey := DomainsV(table)]);
    }

    method GetHiddenCount() returns (count: int)
      requires Valid()
      ensures count == if !faulty && HiddenCountKey in store then store[HiddenCountKey].n else 0
    {
      var result := Get({HiddenCountKey});
      count := HiddenCountIn(result);
    }

    /** Writes the count and the items in one `set` call, touching no other key. */
    method SetHiddenData(count: int, items: seq<string>) returns (ok: bool)
      requires Valid()
      modifies this`store
      ensures Valid() && ok == !faulty
      ensures store == if ok then old(store)[HiddenCountKey := NumV(count)][HiddenItemsKey := ItemsV(items)]
                       else old(store)
    {
      ok := Set(map[HiddenCountKey := NumV(count), HiddenItemsKey := ItemsV(items)]);
    }

    method GetHiddenItems() returns (items: seq<string>)
      requires Valid()
      ensures items == if !faulty && HiddenItemsKey in store then store[HiddenItemsKey].items else []
    {
      var result := Get({HiddenItemsKey});
      items := HiddenItemsIn(result);
    }

    /**
     * Seeds the default user rules and an unpaused state when no user rules
     * are stored.  A failed read looks like an empty store, so the write is
     * attempted; with the single failure flag of this model it fails too.
     * Always reports success, since `get` and `set` never throw.
     */
    method Initialize() returns (ok: bool)
      requires Valid()
      modifies this`store
      ensures Valid() && ok
      ensures store == if faulty then old(store) else Seeded(old(store))
    {
      var result := Get({UserRulesKey});
      if UserRulesKey !in result {
        var _ := Set(map[UserRulesKey := RulesV(DefaultUserRules), IsPausedKey := BoolV(false)]);
      }
      ok := true;
    }
  }
}
