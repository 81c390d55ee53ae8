# Privacy Shield — a verified model of the hiding engine and its tooling

Privacy Shield is a browser extension. It hides personal information on shopping and search pages: delivery addresses, names and order details. It hides them in three ways:

- **By CSS selector.** Each supported site has a built-in list of selectors.
- **By keyword.** The user keeps a list of keywords.
- **By regular expression.** The user keeps a list of patterns.

A content script runs on every page. It does four things:

- hides each element that matches, with `display: none` and a `data-privacy-hidden` marker;
- remembers a short text for every hidden item;
- reports the number of distinct items to the toolbar badge;
- reacts to a pause switch and to rule edits that arrive through extension storage.

An options page edits the keyword and pattern lists and the per-site rule sets. Two build scripts complete the repository: one generates release notes from Conventional Commits, the other bumps the version in `package.json`.

This project states that behaviour in Dafny and proves properties of it. Each module follows one source file:

| module | file | form |
|---|---|---|
| `Types`, `Constants`, `Strings` | shared data, constants and JavaScript string operations | values |
| `Dom` | the page as a tree of nodes; `closest('[role="contentinfo"]')` | values + `Document` class |
| `Helpers` | `src/utils/helpers.js` | functions, one loop method |
| `Config` | `src/config/config.js` | values |
| `Rules` | `src/utils/rules.js` | functions, loop methods |
| `Storage` | `src/utils/storage.js` | `StorageManager` class over a `map` |
| `HidingSpec` | what one pass of `src/content/content.js` does to the page | functions and lemmas |
| `Content` | `src/content/content.js` | `ContentScript` class; each method is proved equal to its `HidingSpec` function |
| `Options` | `src/options/options.js` | list functions + `OptionsPage` class |
| `ReleaseNotes` | `build/generate-release-notes.js` | functions, loop methods |
| `UpdateVersion` | `update-version.js` | functions + `PackageJson` class |

External engines are parameters:

- **CSS query:** `query: string -> Option<seq<int>>`. `None` means the selector throws.
- **Regular expressions:** `compiles` says whether a pattern is valid. `matches(pattern, text)` says whether it matches a text.
- **git:** each command's output is a parameter, with `None` when the command fails.
- **Bundled `rules.json`:** an `Option<DomainTable>` parameter.
- **Storage:** a `map` with a `faulty` flag. The flag stands for a storage call that throws.

## Model

| member | source | states |
|---|---|---|
| `Config.DisplayNameIsFirstMatch` | src/config/config.js:58-65 | the display name is the name of the first table key contained in the domain, or the domain itself when no key is contained |
| `Config.GeminiHostsAreNamedGemini` | src/config/config.js:40-45 | a host containing `gemini.google.com` is shown as "Google Gemini", although it also contains `google.com`, because the Gemini key comes first |
| `Config.UnknownDomainKeepsItsName` | src/config/config.js:58-65 | a domain that contains no key is shown unchanged |
| `Config.FlatMatchesSome` | src/config/config.js:51 | a hostname matches the flattened pattern list exactly when it matches some entry's own `matches` |
| `Config.SupportedPatternsInTableOrder` | src/config/config.js:11-34 | `SUPPORTED_DOMAIN_PATTERNS` is the four built-in patterns, in table order |
| `Config.BuiltInEntriesWellFormed` | src/config/config.js:11-34 | every built-in rule set is enabled and has non-empty `matches` and `selectors`, and its keys are distinct |
| `Dom.ClosestSpec` | src/content/content.js:211 | `closest('[role="contentinfo"]')` returns the nearest landmark among ancestors-or-self, or -1 exactly when there is none |
| `Dom.SelectorTargetIsElement` | src/content/content.js:211 | the element hidden for a selector match is that match or one of its ancestors, and is an element |
| `Dom.AncestorIndex` | src/content/content.js:211 | an ancestor comes before its descendant in document order |
| `Dom.Document.constructor` | src/content/content.js:187-199 | a fresh page carries no hiding marker |
| `Helpers.CollapseSpec` | src/utils/helpers.js:30 | `replace(/\s+/g, ' ')` leaves no whitespace other than single spaces, keeps every visible character and its order, and keeps an empty text empty |
| `Helpers.CollapseOfCollapsed` | src/utils/helpers.js:30 | collapsing a text that is already collapsed changes nothing |
| `Helpers.NormalizeSpec` | src/utils/helpers.js:30 | the normalised text is trimmed and single-spaced, keeps the visible characters, is unchanged when already normal, and normalising twice is normalising once |
| `Helpers.TruncateTextSpec` | src/utils/helpers.js:26-36 | an empty text is returned unchanged; a normalised text of at most `maxLength` is the result itself; a longer one is cut to `maxLength` and the 3-character suffix appended; the result is empty exactly when the normalised text is |
| `Helpers.ClimbSpec` | src/utils/helpers.js:105-112 | the climb ends at an ancestor-or-self whose parent may not be climbed to, and every element it passed could be climbed |
| `Helpers.FindTargetSpec` | src/utils/helpers.js:102-115 | there is no target exactly when the text node has no parent; otherwise the target is an element ancestor of the node at which the length limits stop the climb |
| `Helpers.IsElementAncestor` | src/utils/helpers.js:102-115 | every proper ancestor is an element, never a text node |
| `Helpers.FindTargetElement` | src/utils/helpers.js:102-115 | the `while` loop returns the target `FindTarget` specifies |
| `Helpers.ParseImportData` | src/utils/helpers.js:82-93 | the import is accepted exactly when the text parses to a non-null, non-array object, and then that object is returned; a parse error gives none |
| `Rules.FirstMatchingSpec` | src/utils/rules.js:22-30 | a tier yields `None` exactly when no entry matches the hostname; otherwise it yields the first matching entry in entry order |
| `Rules.FirstMatchingHasMatches` | src/utils/rules.js:22-30 | a resolved rule set always has a `matches` list and comes from the table |
| `Rules.ScanTier` | src/utils/rules.js:22-30 | the loop over `Object.entries` returns the first match `FirstMatching` specifies |
| `Rules.TierPriority` | src/utils/rules.js:19-56 | a stored match wins; the bundled file is consulted only when nothing stored matches; a missing file falls through to the built-in table; a result always matches the hostname |
| `Rules.SupportedIffBuiltInMatch` | src/config/config.js:72-74 | `isSupportedDomain` holds exactly when the built-in tier resolves the hostname |
| `Rules.LoadDomainRules` | src/utils/rules.js:19-56 | loading reads the stored table once and returns the three-tier resolution; a failing read counts as no stored table |
| `Rules.ActiveValuesMember` | src/content/content.js:232-237 | a keyword is active exactly when some entry is a non-empty bare string or an enabled object with that value |
| `Rules.ActiveValuesAppend` | src/content/content.js:232-237 | the active keywords keep the list order |
| `Rules.ActiveValueCases` | src/content/content.js:232-237 | a bare string is active, an enabled entry is active, a disabled entry is not |
| `Rules.CompilePatternsMember` | src/utils/rules.js:77-96 | a pattern survives compilation exactly when it is active and compiles; invalid ones are skipped |
| `Rules.CompilePatternsAppend` | src/utils/rules.js:77-96 | compilation keeps the input order |
| `Rules.CompilePatternsAllValid` | src/utils/rules.js:77-96 | when every active pattern compiles, the compiled list is the active list |
| `Rules.DomainEnabledDefaults` | src/utils/rules.js:119-121 | a missing rule set counts as not enabled; a present one is enabled unless its `enabled` is `false` |
| `Storage.SeededIdempotent` | src/utils/storage.js:146-160 | initialising seeds the defaults only when user rules are absent, so a second initialisation changes nothing |
| `Storage.ReadAfterWrite` | src/utils/storage.js:61-109 | a value written under a key is the value the typed getter reads back |
| `Storage.StorageManager.Get` | src/utils/storage.js:18-25 | a read returns exactly the requested keys that are present, or nothing when storage fails |
| `Storage.StorageManager.Set` | src/utils/storage.js:32-40 | a write merges the items into the store and reports success, or changes nothing and reports failure |
| `Storage.StorageManager.Remove` | src/utils/storage.js:47-55 | a removal deletes exactly the given keys, or changes nothing on failure |
| `Storage.StorageManager.GetIsPaused` | src/utils/storage.js:61-64 | the pause flag defaults to false |
| `Storage.StorageManager.SetIsPaused` | src/utils/storage.js:71-73 | the pause flag is written under its key and nothing else changes |
| `Storage.StorageManager.GetUserRules` | src/utils/storage.js:79-82 | user rules default to empty keyword and pattern lists |
| `Storage.StorageManager.SetUserRules` | src/utils/storage.js:89-91 | user rules are written under their key and nothing else changes |
| `Storage.StorageManager.GetDomainRules` | src/utils/storage.js:97-100 | the stored domain table, or none |
| `Storage.StorageManager.SetDomainRules` | src/utils/storage.js:107-109 | the domain table is written under its key and nothing else changes |
| `Storage.StorageManager.GetHiddenCount` | src/utils/storage.js:115-118 | the hidden count defaults to 0 |
| `Storage.StorageManager.SetHiddenData` | src/utils/storage.js:126-131 | the count and the item list are written together |
| `Storage.StorageManager.GetHiddenItems` | src/utils/storage.js:137-140 | the item list defaults to empty |
| `Storage.StorageManager.Initialize` | src/utils/storage.js:146-160 | the store is seeded with empty rules and not paused when it has no user rules; errors are swallowed |
| `HidingSpec.DescriptorSpec` | src/content/content.js:193 | the remembered text is never empty: the truncated inner text, else the reason, else "Hidden Item" |
| `HidingSpec.HideSpec` | src/content/content.js:187-199 | an already hidden element changes nothing; otherwise it is hidden and marked, and the result is true exactly when its text is new to the set |
| `HidingSpec.SameDescriptorCountsOnce` | src/content/content.js:194-198 | two elements with the same text are both hidden but count once |
| `HidingSpec.HideAllSpec` | src/content/content.js:265-269 | after a batch every target is hidden, nothing else changes, the set only grows, "changed" means the set grew, and the invariant is kept |
| `HidingSpec.HideAllNoop` | src/content/content.js:265-269 | a batch whose targets are all hidden changes nothing and reports no change |
| `HidingSpec.HideAllAppend` | src/content/content.js:206-221 | hiding two batches in turn is hiding their concatenation |
| `HidingSpec.SelectorMatches` | src/content/content.js:209-218 | one selector yields its matches' landmark-or-self targets with reason `Selector: <selector>`; an invalid selector yields none |
| `HidingSpec.MatchFrom` | src/content/content.js:254-262 | the inner loop picks the first rule that matches a non-empty text |
| `Dom.UnderBodySpec` | src/content/content.js:242-246 | a node lies inside `document.body` exactly when the body is the node or one of its ancestors |
| `HidingSpec.FirstRuleWins` | src/content/content.js:249-263 | a text node contributes at most one target, and only when it lies inside `document.body`: its climb target, when unmarked, with the first matching rule as reason |
| `HidingSpec.WalkTargets` | src/content/content.js:249-263 | every collected target is unmarked and is the climb target of some matching text node inside `document.body` |
| `HidingSpec.WalkCollects` | src/content/content.js:249-263 | every matching text node inside `document.body` whose target is unmarked has that target collected |
| `HidingSpec.WalkCovers` | src/content/content.js:228-272 | after a keyword or pattern pass, the target of every matching text node inside `document.body` is hidden |
| `HidingSpec.WalkSkipsOutsideBody` | src/content/content.js:242-246 | the walker is rooted at `document.body`: on a page whose text all lies outside the body, the walk hides nothing |
| `HidingSpec.TitleKeywordNotHidden` | src/content/content.js:242-246 | a keyword that occurs only in the `<title>` hides nothing |
| `HidingSpec.WalkNoop` | src/content/content.js:228-272 | a second walk over a covered page changes nothing |
| `HidingSpec.SelectorPassSpec` | src/content/content.js:206-221 | the selector pass only grows the page, reports change exactly when the set grew, and keeps the invariant |
| `HidingSpec.KeywordPassSpec` | src/content/content.js:228-272 | the keyword pass also leaves every keyword-matching text node inside `document.body` covered |
| `HidingSpec.PatternPassSpec` | src/content/content.js:279-316 | the pattern pass also leaves every text node inside `document.body` that a compiled pattern matches covered |
| `HidingSpec.RunPassGuards` | src/content/content.js:352-361 | a paused page, an unsupported site and a disabled rule set are left untouched |
| `HidingSpec.RunPassSpec` | src/content/content.js:352-380 | a full pass only hides, reports change exactly when new items were remembered, and keeps the invariant |
| `HidingSpec.RunPassIdempotent` | src/content/content.js:352-380 | with the node texts held fixed, a second pass on the same page changes nothing |
| `HidingSpec.SelectorPassNoop` | src/content/content.js:206-221 | a selector pass over a page that grew from its own result hides nothing and reports no change |
| `HidingSpec.KeywordPassNoop` | src/content/content.js:228-272 | a keyword pass over a page where every keyword-matching node is covered hides nothing |
| `HidingSpec.PatternPassNoop` | src/content/content.js:279-316 | a pattern pass over a page where every pattern-matching node is covered hides nothing |
| `HidingSpec.Unhide` | src/content/content.js:149-154 | unhiding shows every marked element, removes every marker, leaves the rest alone, and keeps the remembered items |
| `HidingSpec.UnhideReset` | src/content/content.js:149-154 | the corrected unhide: the same page as `unhideAll`, with the item set cleared |
| `HidingSpec.UnhideSpec` | src/content/content.js:149-154 | unhiding keeps the invariant, leaves unmarked elements alone and shows every marked one |
| `HidingSpec.ResumeAfterUnhideReportsNoChange` | src/content/content.js:108-117 | as written: after pause and resume, the pass re-hides the element but reports no change |
| `HidingSpec.ResumeAfterResetReportsChange` | src/content/content.js:108-117 | with the set cleared, a resumed pass that hides anything reports a change |
| `HidingSpec.ApplyPauseReset` | src/content/content.js:108-117 | the corrected pause branch, which clears the item set on pause; its page still fits the tree, and what the correction achieves is `PauseResetThenResumeSaves` |
| `HidingSpec.PauseResetThenResumeSaves` | src/content/content.js:108-117 | corrected: with `ApplyPauseReset`, pausing empties the item set, and a resume whose pass hides anything schedules a save |
| `HidingSpec.PauseThenResumeSavesNothing` | src/content/content.js:108-117 | as written: on a one-element page, pause then resume hides the element again, schedules no save, and the last badge sent is the pause's 0 |
| `HidingSpec.PauseUnhidesEverything` | src/content/content.js:108-117 | pausing sets the flag and the body class, unhides the page exactly as `unhideAll` does (every marker removed, the item set kept) and sends 0 to the badge; rule changes in the same event leave the page alone |
| `HidingSpec.ResumeRescans` | src/content/content.js:108-117 | resuming clears the body class and runs one full pass |
| `HidingSpec.PausedPageIsUntouched` | src/content/content.js:105-133 | a rule change while paused does not touch the page; a change outside local storage is ignored |
| `HidingSpec.OnStorageChangeKeepsInvariant` | src/content/content.js:105-133 | every storage change, with the pause branch as written (item set kept), keeps the page invariant, and a toast once shown stays shown |
| `Content.ContentScript.constructor` | src/content/content.js:31-35 | initial state: not paused, no rules, nothing remembered, no toast |
| `Content.FirstMatchingRule` | src/content/content.js:254-262 | the inner `for` loop stops at the first rule that a non-empty text matches, as `MatchIndex` specifies |
| `Content.VisitNode` | src/content/content.js:250-262 | one visited node contributes the target `WalkItem` specifies |
| `Content.WalkDocument` | src/content/content.js:249-263 | the `while (walker.nextNode())` loop over the text under `document.body` collects exactly `Walk`'s targets, in document order |
| `Content.ContentScript.HideElement` | src/content/content.js:187-199 | the method does to the page what `Hide` specifies |
| `Content.ContentScript.HideTargets` | src/content/content.js:265-269 | the loop hides the batch as `HideAll` specifies |
| `Content.ContentScript.HideMatches` | src/content/content.js:209-218 | one selector's matches hidden as specified |
| `Content.ContentScript.HideBySelectors` | src/content/content.js:206-221 | the selector loop hides what `SelectorTargets` specifies |
| `Content.ContentScript.CollectTargets` | src/content/content.js:249-263 | the tree walk from `document.body` collects exactly `Walk`'s targets |
| `Content.ContentScript.HideByKeywords` | src/content/content.js:228-272 | the method is the keyword pass, so every keyword-matching text node inside `document.body` ends up covered |
| `Content.ContentScript.HideByPatterns` | src/content/content.js:279-316 | the method is the pattern pass, so every text node inside `document.body` that a compiled pattern matches ends up covered |
| `Content.ContentScript.ShowToast` | src/content/content.js:321-347 | the toast is shown at most once per page |
| `Content.ContentScript.RunMatchers` | src/content/content.js:352-380 | the three passes run in order, as `RunPass` specifies |
| `Content.ContentScript.SelectorMatcher` | src/content/content.js:358-362 | the selector step runs only when the rule set has selectors, as `SelectorPass` specifies |
| `Content.ContentScript.AfterPass` | src/content/content.js:376-379 | a change schedules the save and shows the toast; no change leaves both alone |
| `Content.ContentScript.RunHidingLogic` | src/content/content.js:352-380 | a run hides, schedules a save and shows the toast when something new was hidden, as `Run` specifies |
| `Content.ContentScript.UnhideAll` | src/content/content.js:149-154 | the as-written unhide: markers removed, item set kept |
| `Content.ContentScript.UpdateBodyClass` | src/content/content.js:138-144 | the body class follows the pause flag |
| `Content.ContentScript.UpdateBadge` | src/content/content.js:160-162 | the count is sent to the badge |
| `Content.ContentScript.FlushSave` | src/content/content.js:167-174 | a scheduled save writes the count and the items, and updates the badge with the count |
| `Content.ContentScript.OnPausedChange` | src/content/content.js:108-117 | the pause branch as written, as `ApplyPause` specifies: unhide with the item set kept, badge 0; a save still pending then writes the old count |
| `Content.ContentScript.OnUserRulesChange` | src/content/content.js:119-124 | the user-rules branch: rules replaced and, when not paused, a pass |
| `Content.ContentScript.OnDomainRulesChange` | src/content/content.js:126-132 | the domain-rules branch: rules resolved again and, when not paused, a pass |
| `Content.ContentScript.HandleStorageChange` | src/content/content.js:105-133 | the whole change handler, as `OnStorageChange` specifies |
| `Content.ContentScript.Init` | src/content/content.js:40-79 | state is loaded from storage, the body class is set, and a pass runs unless paused |
| `Content.ContentScript.OnMutation` | src/content/content.js:91-98 | a DOM mutation runs a pass unless paused |
| `Content.ContentScript.LoadSettings` | src/content/content.js:60-79 | the pause flag and the user rules are read from storage and the rule set for the hostname is resolved |
| `Options.SpliceSpec` | src/options/options.js:279-283 | `splice(i, 1)` removes exactly the entry at `i` and shifts the rest; an index past the end changes nothing |
| `Options.SpliceInsert` | src/options/options.js:824-837 | inserting and then removing at one index is the identity |
| `Options.InsertSplice` | src/options/options.js:824-837 | removing and then reinserting the removed entry is the identity |
| `Options.MoveSpec` | src/options/options.js:819-837 | a drop is a permutation that puts the dragged entry at the drop index; dragging back undoes it |
| `Options.FilterSpec` | src/options/options.js:308-315 | the search keeps exactly the entries whose value contains the filter, ignoring ASCII case; an empty filter keeps all |
| `Options.FilteredDeleteRemovesOtherEntry` | src/options/options.js:338-380 | as written: with a filter active, deleting the only shown card removes a different, hidden entry |
| `Options.CardIndexSpec` | src/options/options.js:338-380 | the corrected card index points to the very entry the card shows, and is the card position when no filter is active |
| `Options.OriginSpec` | src/options/options.js:308-315 | every shown card comes from an entry of the full list |
| `Options.PruneMembers` | src/options/options.js:308-315 | a pruned list holds exactly the kept entries |
| `Options.WithoutSpec` | src/options/options.js:288-297 | bulk delete removes exactly the selected indices and keeps the others in order; no selection is the identity |
| `Options.WithoutOne` | src/options/options.js:288-297 | deleting one selected index is one `splice` |
| `Options.DeleteSelected` | src/options/options.js:288-297 | the descending `splice` loop computes `Without` |
| `Options.MigrateSpec` | src/options/options.js:67-78 | a list that starts with a bare string becomes enabled entries with the same values; other lists are kept; migrating twice is migrating once |
| `Options.AddKeywordSpec` | src/options/options.js:259-273 | a keyword is added exactly when its trimmed text is non-empty and no object entry has that value (`k.value === value`, so a legacy bare string with the same text does not block it); it is appended enabled |
| `Options.PatternAddSpec` | src/options/options.js:423-441 | a pattern is added exactly when it is non-empty, compiles and is new; an invalid one is reported as such |
| `Options.CheckKeyword` | src/options/options.js:259-270 | the checks of `addKeyword` give the list and the outcome `AddKeywordTo` specifies |
| `Options.CheckPattern` | src/options/options.js:423-438 | the checks of `addPattern` give the list and the outcome `AddPatternTo` specifies |
| `Options.AddTwiceIsDuplicate` | src/options/options.js:259-273 | adding the same text again is refused as a duplicate |
| `Options.ToggleSpec` | src/options/options.js:385-396 | the toggle sets one entry's `enabled`, converting a bare string, and keeps all values |
| `Options.PutSpec` | src/options/options.js:676 | a property assignment on the domain table updates that key only, keeps key order and keeps keys distinct |
| `Options.MergeSpec` | src/options/options.js:885-887 | `{...domainRules, ...imported}` takes imported entries over existing ones and keeps the rest |
| `Options.SetDomainEnabledSpec` | src/options/options.js:673-680 | a domain toggle enables or disables that rule set for the content script and changes nothing else |
| `Options.SpliceStart` | src/options/options.js:819-823 | the index `splice` acts at for a parsed drag text: `NaN` is 0, a start in range is itself, a negative start counts back from the end and stops at 0, a start past the end is the length |
| `Options.LoadDomains` | src/options/options.js:59 | with a stored table nothing is shared; with none, the table is `SUPPORTED_DOMAINS` itself and exactly its keys are shared; the constant is unchanged and the sharing invariant holds |
| `Options.ToggleDomainIn` | src/options/options.js:676 | the toggle keeps the shared keys, and leaves `SUPPORTED_DOMAINS` alone unless the key is shared |
| `Options.ToggleDomainKeepsAliasing` | src/options/options.js:676 | the toggle keeps the sharing invariant, sets the entry's flag, and on a shared key the constant holds the toggled entry |
| `Options.ImportDomains` | src/options/options.js:885-887 | the merge never changes `SUPPORTED_DOMAINS`; imported keys stop being shared and the others stay shared |
| `Options.ImportDomainsKeepsAliasing` | src/options/options.js:885-887 | the merge keeps the sharing invariant |
| `Options.ResetDomains` | src/options/options.js:213 | the reset shares nothing, and every entry that was shared comes back as it was, toggles included |
| `Options.ResetAfterFreshToggleKeepsToggle` | src/options/options.js:213 | as written (with options.js:59 and 676): with no stored table, turning `google` off and resetting leaves `google` off, although the built-in entry is on |
| `Options.LoadDomainsCopy` | src/options/options.js:59 | the corrected load: the stored table or a copy of the built-in one, nothing shared |
| `Options.UnsharedKeepsBuiltIn` | src/options/options.js:676 | with nothing shared, no sequence of toggles, imports and resets changes the built-in table or shares anything |
| `Options.CopiedLoadResetRestores` | src/options/options.js:209-234 | corrected: after a copying load, a reset at the end of any session restores the built-in table exactly |
| `Options.OptionsPage.constructor` | src/options/options.js:20-25 | the page starts with empty rules, no selection, and nothing shared with `SUPPORTED_DOMAINS` or `DEFAULT_USER_RULES` |
| `Options.OptionsPage.WriteRules` | src/options/options.js:269 | an in-place write into `userRules` also changes `DEFAULT_USER_RULES` while the two are one object |
| `Options.OptionsPage.SaveRules` | src/options/options.js:702-710 | user rules and domain rules are written; a storage error is swallowed |
| `Options.OptionsPage.LoadRules` | src/options/options.js:56-83 | rules are loaded; with none stored (or a failing store) they are `DEFAULT_USER_RULES` itself, and with no stored table the table is `SUPPORTED_DOMAINS` itself, as `LoadDomains` states; legacy lists are migrated, saved, and written through to a shared default |
| `Options.OptionsPage.ReadRules` | src/options/options.js:58-59 | the two reads of `loadRules`, with the sharing they set up |
| `Options.OptionsPage.MigrateRules` | src/options/options.js:67-78 | each legacy list is migrated and saved; the store changes only when a list did |
| `Options.OptionsPage.ResetToDefaults` | src/options/options.js:209-234 | the rules become copies of `DEFAULT_USER_RULES` and `SUPPORTED_DOMAINS` as they now stand, are saved, and share nothing; rules and entries that were shared come back unchanged, edits included |
| `Options.OptionsPage.AddKeyword` | src/options/options.js:259-273 | the keyword list follows `AddKeywordTo`, and is saved only when something was added |
| `Options.OptionsPage.AddPattern` | src/options/options.js:423-441 | the pattern list follows `AddPatternTo`, and is saved only when something was added |
| `Options.OptionsPage.DeleteKeyword` | src/options/options.js:279-283 | one keyword is spliced out, the selection is cleared, and the rules are saved |
| `Options.OptionsPage.DeletePattern` | src/options/options.js:447-451 | one pattern is spliced out, the selection is cleared, and the rules are saved |
| `Options.OptionsPage.DeleteKeywordCard` | src/options/options.js:377-382 | the corrected card delete removes the entry the card shows |
| `Options.OptionsPage.DeletePatternCard` | src/options/options.js:544-549 | the same for patterns |
| `Options.OptionsPage.DeleteBulkKeywords` | src/options/options.js:288-297 | the selected keywords are removed and their number returned |
| `Options.OptionsPage.DeleteBulkPatterns` | src/options/options.js:456-465 | the selected patterns are removed and their number returned |
| `Options.OptionsPage.ToggleKeyword` | src/options/options.js:385-407 | one keyword is toggled and saved |
| `Options.OptionsPage.TogglePattern` | src/options/options.js:552-562 | one pattern is toggled and saved |
| `Options.OptionsPage.ToggleKeywordCard` | src/options/options.js:385-407 | the corrected card toggle acts on the entry the card shows |
| `Options.OptionsPage.TogglePatternCard` | src/options/options.js:552-562 | the same for patterns |
| `Options.OptionsPage.DropKeyword` | src/options/options.js:812-840 | a drop on the dragged card changes and saves nothing; any other drop moves the entry at the `splice` start of the dragged number (`NaN` is 0, negatives count from the end) to the target index with `Move`, and saves |
| `Options.OptionsPage.DropPattern` | src/options/options.js:812-840 | the same for patterns |
| `Options.OptionsPage.ToggleDomain` | src/options/options.js:673-680 | a domain toggle is applied, written into `SUPPORTED_DOMAINS` too when the entry is shared (`ToggleDomainIn`), and saved |
| `Options.OptionsPage.HandleImport` | src/options/options.js:869-898 | an invalid file changes nothing; a valid one replaces the user rules when present (ending their sharing), merges the domain rules (imported keys stop being shared) and saves |
| `ReleaseNotes.MatchHeaderSound` | build/generate-release-notes.js:23-24 | every match of the header regex is well shaped, and its captures make up the whole line |
| `ReleaseNotes.MatchHeaderComplete` | build/generate-release-notes.js:23-24 | every well-shaped header line is matched, with exactly those captures |
| `ReleaseNotes.FooterOnLaterLine` | build/generate-release-notes.js:39 | a `BREAKING CHANGE:` or `BREAKING-CHANGE:` line, in any case and on any line, marks the commit breaking |
| `ReleaseNotes.FooterIsContained` | build/generate-release-notes.js:39 | a breaking footer is always contained in the lower-cased message |
| `ReleaseNotes.ParseCommitOther` | build/generate-release-notes.js:26-34 | a non-conventional first line gives type `other`, no scope, not breaking, and the trimmed first line as subject |
| `ReleaseNotes.ParseCommitHeader` | build/generate-release-notes.js:36-47 | a conventional header gives the lower-cased type, the scope, and breaking exactly when `!` or a footer is present |
| `ReleaseNotes.ParseCommitSubject` | build/generate-release-notes.js:45 | the subject is the non-empty, trimmed rest of the header |
| `ReleaseNotes.ParseCommitExamples` | build/generate-release-notes.js:17-48 | `feat(ui)!: add` parses to type `feat`, scope `ui`, breaking, subject `add` |
| `ReleaseNotes.SanitizeSpec` | build/generate-release-notes.js:59-60 | a sanitised tag keeps only allowed characters, in order; a clean tag is unchanged; sanitising twice is sanitising once |
| `ReleaseNotes.LogCommandSafe` | build/generate-release-notes.js:63-66 | whatever the tags, the only spaces and shell characters in the command are the fixed ones |
| `ReleaseNotes.TagCharInert` | build/generate-release-notes.js:59-60 | no allowed tag character is whitespace or a shell metacharacter |
| `ReleaseNotes.BlockPartsSpec` | build/generate-release-notes.js:72-76 | a block yields a commit exactly when its trimmed text has two lines; the hash line and the body make up the block |
| `ReleaseNotes.ShortHashSpec` | build/generate-release-notes.js:80 | the short hash is the first seven characters |
| `ReleaseNotes.CommitsOfMembers` | build/generate-release-notes.js:69-83 | the commits are exactly those of the blocks that have two lines |
| `ReleaseNotes.CollectLoop` | build/generate-release-notes.js:71-83 | the `for` loop over the blocks collects, in order, the commit of every block that has one |
| `ReleaseNotes.NonBlankMembers` | build/generate-release-notes.js:69 | blank blocks are dropped and the others kept |
| `ReleaseNotes.GetCommits` | build/generate-release-notes.js:56-90 | the loop returns the commits of the sanitised log command's output, or none when git fails |
| `ReleaseNotes.PreviousTagSpec` | build/generate-release-notes.js:96-109 | the previous tag is the second non-blank line of the tag list, or none |
| `ReleaseNotes.CategorizeCommits` | build/generate-release-notes.js:116-147 | the loop sorts commits into categories as `Categorized` specifies |
| `ReleaseNotes.CategorizedTotal` | build/generate-release-notes.js:116-147 | every commit lands in exactly one category |
| `ReleaseNotes.BucketMembers` | build/generate-release-notes.js:127-144 | a category holds exactly the commits of that kind, and breaking commits go first, whatever their type |
| `ReleaseNotes.BucketAppend` | build/generate-release-notes.js:127-144 | categories keep the commit order |
| `ReleaseNotes.FormatCommitSpec` | build/generate-release-notes.js:154-157 | a line is a list item that shows the scope in bold when present, then the subject, and ends with the hash in parentheses |
| `ReleaseNotes.AddSectionEmpty` | build/generate-release-notes.js:165-170 | an empty category gives no section; otherwise the section starts with its heading |
| `ReleaseNotes.AddSectionListsAll` | build/generate-release-notes.js:165-170 | a section lists every commit of its category |
| `ReleaseNotes.NotesEmptyIff` | build/generate-release-notes.js:177-189 | the notes are empty exactly when there are no commits |
| `ReleaseNotes.BreakingSectionFirst` | build/generate-release-notes.js:178-186 | when there are breaking changes, the notes start with their section |
| `ReleaseNotes.NotesListEveryCommit` | build/generate-release-notes.js:177-189 | the notes list every categorised commit |
| `ReleaseNotes.NotesListCommits` | build/generate-release-notes.js:177-189 | the notes for a non-empty commit list are non-empty and list every commit of it |
| `ReleaseNotes.ReleaseOutputSpec` | build/generate-release-notes.js:194-217 | the script always prints something: the first-release note without a previous tag, the no-changes note without commits, and otherwise notes that list every commit |
| `UpdateVersion.Inc` | update-version.js:20-30 | `++` adds one to a number and turns `undefined` or `NaN` into `NaN` |
| `UpdateVersion.TwoPiecePatchIsNaN` | update-version.js:13-34 | a two-piece version `a.b` has no patch piece, so a patch bump increments `undefined` and writes `a.b.NaN` |
| `UpdateVersion.NatTextSpec` | update-version.js:34 | a number prints as decimal digits, without a leading zero, that read back as the number |
| `UpdateVersion.NumberOfText` | update-version.js:14 | `Number` of a printed number is that number |
| `UpdateVersion.LevelOf` | update-version.js:18-32 | `major` and `minor` select their level; any other argument, or none, bumps the patch |
| `UpdateVersion.BumpedShape` | update-version.js:18-32 | a bump keeps the higher numbers, resets the lower ones, and gives a strictly greater version |
| `UpdateVersion.BumpedLeast` | update-version.js:18-32 | the bump is the least greater version that keeps the higher numbers and resets the lower ones |
| `UpdateVersion.BumpedNumeric` | update-version.js:12-32 | the new version is numeric exactly when the pieces at and above the level are numbers |
| `UpdateVersion.ParseVersionText` | update-version.js:12-14 | parsing `a.b.c` gives back the three numbers |
| `UpdateVersion.NewVersionOfText` | update-version.js:12-34 | from `a.b.c`, major gives `a+1.0.0`, minor gives `a.b+1.0`, and anything else gives `a.b.c+1` |
| `UpdateVersion.NewVersionSpec` | update-version.js:12-34 | the new version of a numeric version is numeric, strictly greater, keeps the higher numbers and resets the lower ones |
| `UpdateVersion.Bump` | update-version.js:18-32 | the `switch` computes `Bumped` |
| `UpdateVersion.PackageJson.UpdateVersion` | update-version.js:10-37 | `version` is replaced by the new version and every other field is kept |

## Left out

- Browser APIs are left out: `chrome.storage` listeners, `chrome.runtime` messaging and the badge text. The badge is the list of counts sent (`badges`). The storage-change handler gets the changes as parameters.
- Timers are left out. The 500 ms debounce of `saveHiddenItems` is a `saveScheduled` flag that `FlushSave` consumes. The toast's fade timers are left out; only "shown once" is kept.
- The CSS selector engine, `innerText` and the regular-expression engine are not modelled. They are parameters (`query`, the node text, `compiles` and `matches`).
- HidingSpec.RunPassIdempotent holds for fixed node texts only. Each node's `innerText` is fixed here, but in a browser it changes with the page. It leaves out descendants with `display: none`, and for an element that is itself not rendered it is the `textContent`. Two consequences are not modelled. First, hiding a node shortens its ancestors' `innerText`. The observer on `document.body` (src/content/content.js:91-98) fires on the toast append (src/content/content.js:336), and in that re-run the climb of src/utils/helpers.js:106-107 can reach a larger ancestor and hide it. Second, the descriptor is read after `display: none` is set (src/content/content.js:190-193), so it is the element's `textContent`.
- HidingSpec.WalkNoop, HidingSpec.KeywordPassNoop and HidingSpec.PatternPassNoop hold for fixed node texts only, for the same reason. A re-run after hiding can pick a different climb target.
- HidingSpec.Descriptor takes the element's fixed text. In a browser it is read after `display: none` is set, so it is the `textContent`, which also holds the text of hidden descendants.
- The document is assumed to have a body (`isBody`). Without one, `createTreeWalker(null, …)` throws; that case is not modelled.
- HidingSpec.PatternPass: each node gets a fresh `matches` test. In the source this is a latent bug, not only a modelling limit. src/utils/rules.js:89 compiles every pattern with the `g` flag, and src/content/content.js:299 reuses each `RegExp` across text nodes, so `test` starts from the `lastIndex` the previous match left. Example: pattern `a`, then text nodes `xa` and `a`. The first test leaves `lastIndex` at 2, so the second test fails and that node is not hidden. `PatternPassSpec`'s coverage therefore holds of the model only.
- HidingSpec.PatternPass: the reason is `Pattern: ` plus the pattern text. `regex.source` escaping (for example `/` as `\/`) is not modelled.
- Strings.Lower folds ASCII letters only. Lengths count characters, not UTF-16 code units, so `truncateText` can differ on surrogate pairs.
- Options.Migrate: a list that starts with a bare string and later holds objects would, in JavaScript, wrap those objects inside new objects. The model keeps their values only.
- Options.OptionsPage: `selectedKeywords` and `selectedPatterns` are never filled anywhere in src/options/options.js. Bulk delete acts on whatever set the field holds.
- UpdateVersion.ToNumber handles decimal digit strings after trimming only. It does not model floats, exponents, hex or precision loss above 2^53; everything else is `NaN`.
- Options.Put and Options.Merge keep insertion order. JavaScript's ordering of integer-like keys first is not modelled. Rules.FirstMatching, Rules.ScanTier and Config.GetDomainDisplayName scan their tables in list order for the same reason. The source's `Object.entries` (src/utils/rules.js:25, 35, 45 and src/config/config.js:59) would visit integer-like keys first. Domain keys are host names, so the orders agree in practice.
- src/background/background.js, src/utils/logger.js, build/bundle.js, the popup, `escapeHtml`, HTML rendering, the theme and general settings, and export with its date-stamped file name are not part of this model.
- JSON text parsing and the `fetch` of the bundled `rules.json` are parameters: a parsed value, and an optional table.
- File I/O, `process.argv`, `execSync` and console output of the two build scripts are parameters or left out.
- Storage.StorageManager.Initialize: a single `faulty` flag decides every call, so a read that succeeds followed by a write that fails is not modelled.
- Content.ContentScript.OnDomainRulesChange: the `await loadDomainRules()` is atomic here. Interleaving with other events during that await is not modelled.
- `testPattern` in src/utils/rules.js is a direct use of the regex oracle and is not modelled on its own.
- Options.OptionsPage.DropKeyword requires the `splice` start of the dragged number to lie inside the list. A drag text whose number is at or past the end (a drag from elsewhere) makes `splice` remove nothing, so the source inserts `undefined` and saves it; the entries here have no `undefined`, so that case is not modelled.
- Options.OptionsPage.DropPattern has the same requirement, for the same reason.
- Options.OptionsPage.HandleImport takes the import already parsed into well-shaped `userRules` and `domainRules`. The source adopts any truthy `userRules` and spreads any `domainRules` value (an array, a string, entries of any shape); those ill-shaped imports are not modelled.
- Options.OptionsPage: sharing is tracked per object the page can reach (`userRules` as a whole, and each entry of `domainRules`). A shared `keywords` array that is later assigned a new array is not told apart from the object holding it; every in-place edit in src/options/options.js goes through the object, so the two agree.

## Findings

| source | as written | input that shows it | evidently intended | confidence | as-written member | corrected member |
|---|---|---|---|---|---|---|
| src/content/content.js:108-117, 149-154 | `unhideAll` removes the markers but keeps `hiddenItemsSet`. After resume, `hideElement` finds every text already in the set and returns false, so the pass reports no change, never saves, and the badge keeps the 0 that pausing sent. The content script of this model is as written (`ApplyPause`); `PauseThenResumeSavesNothing` shows the same through the handler. | one element selected by `#addr` with text `x`: hide, pause, resume | unhide-all also clears the set, so the resumed pass reports its items and the badge shows the count again (`ApplyPauseReset`, with `PauseResetThenResumeSaves` for the handler) | high (proved on the model; not executed) | `HidingSpec.ResumeAfterUnhideReportsNoChange` | `HidingSpec.ResumeAfterResetReportsChange` |
| src/options/options.js:59, 213, 676 | With no stored table, `domainRules` is the `SUPPORTED_DOMAINS` object itself, so a domain toggle writes into the constant, and `resetToDefaults` copies the toggled constant. `userRules` shares `DEFAULT_USER_RULES` in the same way when no rules are stored (src/utils/storage.js:79-82). The options page of this model is as written. | no stored table: load, turn `google` off, reset | loading takes a copy, so a reset restores the built-in table (`LoadDomainsCopy`) | high (proved on the model; not executed) | `Options.ResetAfterFreshToggleKeepsToggle` | `Options.CopiedLoadResetRestores` |
| src/options/options.js:303-382, 552-562 | Cards are numbered by their position in the filtered list (`data-index`), but delete and toggle use that number as an index into the full list. | keywords `a`, `b` with search `b`: deleting the only card (`b`) removes `a` | the card's index in the full list | high (proved on the model; not executed) | `Options.FilteredDeleteRemovesOtherEntry` | `Options.CardIndexSpec` |
