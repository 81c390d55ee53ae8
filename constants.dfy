/** The constant values of src/config/constants.js that the core uses. */
module Constants {
  import opened Types

  /** MAX_TEXT_LENGTH_SMALL: an element whose text is this long or longer is not climbed past. */
  const MaxTextLengthSmall: nat := 100

  /** MAX_TEXT_LENGTH_LARGE: a parent whose text is this long or longer is never chosen. */
  const MaxTextLengthLarge: nat := 200

  /** PREVIEW_TEXT_LENGTH: the length descriptors are truncated to. */
  const PreviewTextLength: nat := 50

  /** STORAGE_KEYS */
  const IsPausedKey: string := "isPaused"
  const HiddenCountKey: string := "hiddenCount"
  const HiddenItemsKey: string := "hiddenItems"
  const UserRulesKey: string := "userRules"
  const DomainRulesKey: string := "domainRules"
  const GeneralSettingsKey: string := "generalSettings"

  /** DEFAULT_USER_RULES */
  const DefaultUserRules: UserRules := UserRules([], [])
}
