/**
  The per-document display settings and the defaults they give to folders and entries
  stored without those fields. A field is "missing" the way the page tests it: an empty
  (falsy) aspect ratio or colour, an absent tag list, and for the white-text flag only an
  absent value (`=== undefined`), so a stored `false` stays `false`.
 */
module Defaults {
  import opened Wrappers
  import opened Tree
  import opened Tags

  /** `data.settings`. */
  datatype Settings = Settings(
    defaultFolderAspectRatio: string,
    defaultFolderColor: string,
    defaultEntryAspectRatio: string,
    defaultEntryColor: string,
    defaultFolderWhiteText: bool,
    linksExpandedByDefault: bool,
    noteExpandedByDefault: bool,
    tagsExpandedByDefault: bool,
    entryClickAction: string)

  /** The settings a new document, or a document stored without settings, starts with. */
  const InitialSettings: Settings := Settings("8:3", "#28a745", "8:3", "#6c757d", false, true, true, false, "openLinks")

  /** A folder with its missing display fields filled from `s`. */
  function FolderWithDefaults(f: Folder, s: Settings): Folder {
    f.(aspectRatio := if f.aspectRatio == "" then s.defaultFolderAspectRatio else f.aspectRatio,
       color := if f.color == "" then s.defaultFolderColor else f.color,
       whiteText := if f.whiteText.None? then Some(s.defaultFolderWhiteText) else f.whiteText,
       folderTags := if f.folderTags.None? then Some([]) else f.folderTags)
  }

  /** An entry with its missing display fields filled from `s`. */
  function EntryWithDefaults(e: Entry, s: Settings): Entry {
    e.(aspectRatio := if e.aspectRatio == "" then s.defaultEntryAspectRatio else e.aspectRatio,
       color := if e.color == "" then s.defaultEntryColor else e.color,
       entryTags := if e.entryTags.None? then Some([]) else e.entryTags)
  }

  /** What `applyDefaultSettings(item, type)` leaves in `item`. */
  function WithDefaults(item: Item, s: Settings): (r: Item)
    ensures r.FolderItem? == item.FolderItem?
    ensures HasDisplayFields(item) ==> r == item
    ensures FillsFields(s) ==> HasDisplayFields(r)
  {
    match item
    case FolderItem(f) => FolderItem(FolderWithDefaults(f, s))
    case EntryItem(e) => EntryItem(EntryWithDefaults(e, s))
  }

  /** None of the fields `applyDefaultSettings` looks at is missing. */
  predicate HasDisplayFields(item: Item) {
    match item
    case FolderItem(f) => f.aspectRatio != "" && f.color != "" && f.whiteText.Some? && f.folderTags.Some?
    case EntryItem(e) => e.aspectRatio != "" && e.color != "" && e.entryTags.Some?
  }

  /** The settings are usable as defaults: they fill every field with a non-empty value. */
  predicate FillsFields(s: Settings) {
    s.defaultFolderAspectRatio != "" && s.defaultFolderColor != "" && s.defaultEntryAspectRatio != "" && s.defaultEntryColor != ""
  }

  /**
    Only missing fields change, each to the setting for its kind; the name, cover, links,
    note and sub-trees are those of the item given.
   */
  lemma DefaultsFillOnlyMissing(item: Item, s: Settings)
    ensures item.FolderItem? <==> WithDefaults(item, s).FolderItem?
    ensures item.FolderItem? ==>
              var f, g := item.folder, WithDefaults(item, s).folder;
              && g.name == f.name && g.cover == f.cover && g.folders == f.folders && g.entries == f.entries
              && g.aspectRatio == (if f.aspectRatio == "" then s.defaultFolderAspectRatio else f.aspectRatio)
              && g.color == (if f.color == "" then s.defaultFolderColor else f.color)
              && (f.whiteText.Some? ==> g.whiteText == f.whiteText)
              && (f.whiteText.None? ==> g.whiteText == Some(s.defaultFolderWhiteText))
              && (f.folderTags.Some? ==> g.folderTags == f.folderTags)
    ensures item.EntryItem? ==>
              var e, g := item.entry, WithDefaults(item, s).entry;
              && g.name == e.name && g.cover == e.cover && g.links == e.links && g.note == e.note
              && g.aspectRatio == (if e.aspectRatio == "" then s.defaultEntryAspectRatio else e.aspectRatio)
              && g.color == (if e.color == "" then s.defaultEntryColor else e.color)
              && (e.entryTags.Some? ==> g.entryTags == e.entryTags)
  {
  }

  /** Applying the defaults twice with the same settings is the same as applying them once. */
  lemma DefaultsIdempotent(item: Item, s: Settings)
    ensures WithDefaults(WithDefaults(item, s), s) == WithDefaults(item, s)
  {
  }

  /** A stored `false` for the white-text flag is kept even when the default says `true`. */
  lemma StoredFalseWhiteTextKept(f: Folder, s: Settings)
    requires f.whiteText == Some(false) && s.defaultFolderWhiteText
    ensures FolderWithDefaults(f, s).whiteText == Some(false)
  {
  }

  /** The colour of a folder or an entry. */
  function ItemColor(item: Item): string {
    match item
    case FolderItem(f) => f.color
    case EntryItem(e) => e.color
  }

  /**
    With default colours that pass the colour check, every colour the defaults leave on an
    item passes it too, unless the item already stored one that does not.
   */
  lemma DefaultColoursPassCheck(item: Item, s: Settings)
    requires IsValidHexColor(s.defaultFolderColor) && IsValidHexColor(s.defaultEntryColor)
    requires ItemColor(item) == "" || IsValidHexColor(ItemColor(item))
    ensures IsValidHexColor(ItemColor(WithDefaults(item, s)))
    ensures ItemColor(item) != "" ==> ItemColor(WithDefaults(item, s)) == ItemColor(item)
  {
  }

  /** The initial settings fill every field, and their colours pass the colour check. */
  lemma InitialSettingsUsable()
    ensures FillsFields(InitialSettings)
    ensures IsValidHexColor(InitialSettings.defaultFolderColor) && IsValidHexColor(InitialSettings.defaultEntryColor)
  {
  }
}
