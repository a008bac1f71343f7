/**
 * The activity's snapshot-slot previews: the game title shown for a slot (from a `.title` sidecar, or else
 * from the current game's name), the fallback title it writes, the thumbnail it decodes, and the ten-slot list.
 */
module SnapshotPreviews {
  import opened Wrappers
  import opened Sequences
  import opened KotlinText
  import opened CBytes
  import opened SnapshotFiles
  import opened ThumbnailFormat

  /**
   * What the activity takes from the Android platform rather than computing itself: `Uri.decode`, UTF-8
   * decoding and encoding of file contents, and the localized strings `snapshot_unknown_game`,
   * `snapshot_empty_slot` and `snapshot_slot_label`.
   */
  datatype Platform = Platform(
    uriDecode: string -> string,
    decodeUtf8: seq<byte> -> string,
    encodeUtf8: string -> seq<byte>,
    unknownGame: string,
    emptySlot: string,
    slotLabel: int -> string)

  /** The `dvdPath` and `dvdUri` entries of the `x1box_prefs` preferences; `None` when a key is absent. */
  datatype Prefs = Prefs(dvdPath: Option<string>, dvdUri: Option<string>)

  /** One entry of the slot picker. */
  datatype SlotPreview = SlotPreview(slot: int, slotLabel: string, gameTitle: string, thumbnail: Option<Image>)

  predicate IsSlash(c: char) { c == '/' }

  /** `File(path).name`: the path is normalized (trailing separators dropped), then the last component is taken. */
  function FileName(path: string): (name: string)
    ensures '/' !in name
  {
    SubstringAfterLast(TrimEnd(path, IsSlash), '/')
  }

  /** The name of `File(dir, leaf)` is `leaf`. */
  lemma FileNameOfChild(dir: Path, leaf: string)
    requires leaf != [] && '/' !in leaf
    ensures FileName(Child(dir, leaf)) == leaf
  {
    var path := Child(dir, leaf);
    assert TrimEnd(path, IsSlash) == path;
    SubstringAfterLastAppend(dir + "/", leaf, '/');
    assert SubstringAfterLast(dir + "/", '/') == [];
  }

  /**
   * `extractDisplayName`: a blank or missing name has none; otherwise the URI-decoded text is cut after its last
   * `/` and then after its last `:`, and the extension after the last `.` is dropped. The result is never empty
   * and carries no surrounding whitespace and no path or volume separator.
   */
  function ExtractDisplayName(uriDecode: string -> string, rawName: Option<string>): (name: Option<string>)
    ensures rawName.None? || IsBlank(rawName.value) ==> name.None?
    ensures name.Some? ==>
      name.value != [] && TrimWhitespace(name.value) == name.value && '/' !in name.value && ':' !in name.value
  {
    if rawName.None? || IsBlank(rawName.value) then None
    else
      var decoded := uriDecode(rawName.value);
      var afterSlash := SubstringAfterLast(decoded, '/');
      var leaf := SubstringAfterLast(afterSlash, ':');
      if IsBlank(leaf) then None
      else
        var base := SubstringBeforeLast(leaf, '.', leaf);
        var stem := TrimWhitespace(base);
        if stem == [] then None
        else
          TrimWhitespaceIdempotent(base);
          TrimKeepsElements(base, IsWhitespace);
          assert forall c :: c in base ==> c in leaf;
          assert forall c :: c in leaf ==> c in afterSlash;
          Some(stem)
  }

  /** A text ending in the delimiter has nothing after its last delimiter. */
  lemma AfterLastOfTerminated(s: string, delimiter: char)
    requires s != [] && s[|s| - 1] == delimiter
    ensures SubstringAfterLast(s, delimiter) == []
  {
    AfterLastUnique(s, delimiter, []);
  }

  /** The last component of `dir + leaf`, after any `/` and then any `:`, is `leaf` when `dir` ends in a separator. */
  lemma LeafAfterSeparators(dir: string, leaf: string)
    requires dir == [] || dir[|dir| - 1] == '/' || dir[|dir| - 1] == ':'
    requires '/' !in leaf && ':' !in leaf
    ensures SubstringAfterLast(SubstringAfterLast(dir + leaf, '/'), ':') == leaf
  {
    var head := SubstringAfterLast(dir, '/');
    assert SubstringAfterLast(dir + leaf, '/') == head + leaf by {
      SubstringAfterLastAppend(dir, leaf, '/');
    }
    assert SubstringAfterLast(head + leaf, ':') == SubstringAfterLast(head, ':') + leaf by {
      SubstringAfterLastAppend(head, leaf, ':');
    }
    assert SubstringAfterLast(head, ':') == [] by {
      if dir != [] && dir[|dir| - 1] == '/' {
        AfterLastOfTerminated(dir, '/');
      } else if head != [] {
        assert head[|head| - 1] == dir[|dir| - 1];
        AfterLastOfTerminated(head, ':');
      }
    }
  }

  /** Dropping the extension of `stem.ext`, where the extension has no dot, leaves `stem`. */
  lemma StemBeforeExtension(stem: string, ext: string)
    requires '.' !in ext
    ensures SubstringBeforeLast(stem + "." + ext, '.', stem + "." + ext) == stem
  {
    var leaf := stem + "." + ext;
    assert leaf[|stem|] == '.';
  }

  /**
   * A file name `stem.ext` after any directory or volume prefix displays as the trimmed `stem`, and as nothing
   * when the stem is blank.
   */
  lemma DisplayNameOfFileName(uriDecode: string -> string, rawName: string, dir: string, stem: string, ext: string)
    requires !IsBlank(rawName) && uriDecode(rawName) == dir + (stem + "." + ext)
    requires dir == [] || dir[|dir| - 1] == '/' || dir[|dir| - 1] == ':'
    requires '/' !in stem && ':' !in stem && '/' !in ext && ':' !in ext && '.' !in ext
    ensures ExtractDisplayName(uriDecode, Some(rawName)) ==
      if TrimWhitespace(stem) == [] then None else Some(TrimWhitespace(stem))
  {
    var leaf := stem + "." + ext;
    assert '/' !in leaf && ':' !in leaf;
    LeafAfterSeparators(dir, leaf);
    assert !IsBlank(leaf) by { assert leaf[|stem|] == '.'; }
    StemBeforeExtension(stem, ext);
  }

  /**
   * A last segment without an extension, such as the `1234` of a decoded `msf:1234`, displays as the whole
   * segment trimmed, and as nothing when it is blank.
   */
  lemma DisplayNameOfDotlessLeaf(uriDecode: string -> string, rawName: string, dir: string, leaf: string)
    requires !IsBlank(rawName) && uriDecode(rawName) == dir + leaf
    requires dir == [] || dir[|dir| - 1] == '/' || dir[|dir| - 1] == ':'
    requires '/' !in leaf && ':' !in leaf && '.' !in leaf
    ensures ExtractDisplayName(uriDecode, Some(rawName)) ==
      if TrimWhitespace(leaf) == [] then None else Some(TrimWhitespace(leaf))
  {
    LeafAfterSeparators(dir, leaf);
    assert SubstringBeforeLast(leaf, '.', leaf) == leaf;
  }

  /** The display name of the file the `dvdPath` preference names, if it has one. */
  function DvdPathName(p: Platform, prefs: Prefs): Option<string> {
    ExtractDisplayName(p.uriDecode, if prefs.dvdPath.Some? then Some(FileName(prefs.dvdPath.value)) else None)
  }

  /** `fallbackCurrentGameName`: the name of the disc image path, else of the disc URI, else "unknown game". */
  function FallbackCurrentGameName(p: Platform, prefs: Prefs): (name: string)
    ensures name == p.unknownGame || (name != [] && TrimWhitespace(name) == name && '/' !in name && ':' !in name)
    ensures DvdPathName(p, prefs).Some? ==> name == DvdPathName(p, prefs).value
    ensures DvdPathName(p, prefs).None? && ExtractDisplayName(p.uriDecode, prefs.dvdUri).Some? ==>
      name == ExtractDisplayName(p.uriDecode, prefs.dvdUri).value
    ensures DvdPathName(p, prefs).None? && ExtractDisplayName(p.uriDecode, prefs.dvdUri).None? ==> name == p.unknownGame
  {
    var pathName := DvdPathName(p, prefs);
    if pathName.Some? then pathName.value
    else
      var uriName := ExtractDisplayName(p.uriDecode, prefs.dvdUri);
      if uriName.Some? then uriName.value else p.unknownGame
  }

  /** With a disc image at `dir/stem.ext`, the fallback name is `stem`, whatever the URI entry holds. */
  lemma FallbackNameFromDvdPath(p: Platform, prefs: Prefs, dir: Path, stem: string, ext: string)
    requires prefs.dvdPath == Some(Child(dir, stem + "." + ext))
    requires p.uriDecode(stem + "." + ext) == stem + "." + ext
    requires '/' !in stem && ':' !in stem && '/' !in ext && ':' !in ext && '.' !in ext
    requires stem != [] && !IsWhitespace(stem[0]) && !IsWhitespace(stem[|stem| - 1])
    ensures FallbackCurrentGameName(p, prefs) == stem
  {
    var leaf := stem + "." + ext;
    FileNameOfChild(dir, leaf);
    assert !IsBlank(leaf) by { assert leaf[0] == stem[0]; }
    assert leaf == [] + leaf;
    DisplayNameOfFileName(p.uriDecode, leaf, [], stem, ext);
    TrimOfTrimmed(stem, IsWhitespace);
  }

  /**
   * With no disc image path and a disc URI whose last segment decodes to `stem.ext`, the fallback name is
   * `stem`.
   */
  lemma FallbackNameFromDvdUri(p: Platform, prefs: Prefs, dir: string, stem: string, ext: string)
    requires prefs.dvdPath.None? && prefs.dvdUri.Some? && !IsBlank(prefs.dvdUri.value)
    requires p.uriDecode(prefs.dvdUri.value) == dir + (stem + "." + ext)
    requires dir == [] || dir[|dir| - 1] == '/' || dir[|dir| - 1] == ':'
    requires '/' !in stem && ':' !in stem && '/' !in ext && ':' !in ext && '.' !in ext
    requires stem != [] && !IsWhitespace(stem[0]) && !IsWhitespace(stem[|stem| - 1])
    ensures FallbackCurrentGameName(p, prefs) == stem
  {
    DisplayNameOfFileName(p.uriDecode, prefs.dvdUri.value, dir, stem, ext);
    TrimOfTrimmed(stem, IsWhitespace);
  }

  /** With each preference entry absent or blank, the fallback is the localized "unknown game". */
  lemma FallbackNameUnknownWithoutPrefs(p: Platform, prefs: Prefs)
    requires prefs.dvdPath.None? || IsBlank(FileName(prefs.dvdPath.value))
    requires prefs.dvdUri.None? || IsBlank(prefs.dvdUri.value)
    ensures FallbackCurrentGameName(p, prefs) == p.unknownGame
  {
  }

  /** The trimmed text of the first `.title` file found for the slot, or "" when there is none. */
  function StoredTitle(fs: FileSystem, storage: Storage, p: Platform, slot: int): (title: string)
    ensures title == TrimWhitespace(title)
  {
    match ResolvedPreviewFile(fs, storage, slot, "title")
    case Some(file) =>
      if file in fs then
        var text := TrimWhitespace(p.decodeUtf8(fs[file]));
        TrimWhitespaceIdempotent(p.decodeUtf8(fs[file]));
        text
      else ""
    case None => ""
  }

  /**
   * `readSnapshotGameTitle`: a non-blank stored title wins; otherwise a slot that has a thumbnail shows the
   * current game's name, and a slot with neither shows "empty slot".
   */
  function ReadSnapshotGameTitle(fs: FileSystem, storage: Storage, p: Platform, prefs: Prefs, slot: int): (title: string)
    ensures StoredTitle(fs, storage, p, slot) != [] ==> title == StoredTitle(fs, storage, p, slot)
    ensures StoredTitle(fs, storage, p, slot) == [] && ResolvedPreviewFile(fs, storage, slot, "thm").Some? ==>
      title == FallbackCurrentGameName(p, prefs)
    ensures StoredTitle(fs, storage, p, slot) == [] && ResolvedPreviewFile(fs, storage, slot, "thm").None? ==>
      title == p.emptySlot
    ensures p.unknownGame != [] && p.emptySlot != [] ==> title != []
  {
    var stored := StoredTitle(fs, storage, p, slot);
    if stored != [] then stored
    else if ResolvedPreviewFile(fs, storage, slot, "thm").Some? then FallbackCurrentGameName(p, prefs)
    else p.emptySlot
  }

  /** A slot with no `.title` and no `.thm` file under any alias, in any snapshot directory, shows "empty slot". */
  lemma EmptySlotWithoutPreviewFiles(fs: FileSystem, storage: Storage, p: Platform, prefs: Prefs, slot: int)
    requires NoMatch(fs, SnapshotPreviewDirs(storage), SlotNameAliases(slot), "title")
    requires NoMatch(fs, SnapshotPreviewDirs(storage), SlotNameAliases(slot), "thm")
    ensures ReadSnapshotGameTitle(fs, storage, p, prefs, slot) == p.emptySlot
  {
    ResolveNone(fs, SnapshotPreviewDirs(storage), SlotNameAliases(slot), "title");
    ResolveNone(fs, SnapshotPreviewDirs(storage), SlotNameAliases(slot), "thm");
  }

  /** A non-blank canonical `.title` sidecar is what the slot shows, trimmed. */
  lemma CanonicalTitleShown(fs: FileSystem, storage: Storage, p: Platform, prefs: Prefs, slot: int)
    requires SnapshotPreviewTitleFile(storage, slot) in fs
    requires !IsBlank(p.decodeUtf8(fs[SnapshotPreviewTitleFile(storage, slot)]))
    ensures ReadSnapshotGameTitle(fs, storage, p, prefs, slot)
      == TrimWhitespace(p.decodeUtf8(fs[SnapshotPreviewTitleFile(storage, slot)]))
  {
    CanonicalFileResolvesFirst(fs, storage, slot, "title");
  }

  /** The canonical title file holds a non-blank title. */
  predicate HasCanonicalTitle(fs: FileSystem, storage: Storage, p: Platform, slot: int) {
    var file := SnapshotPreviewTitleFile(storage, slot);
    file in fs && TrimWhitespace(p.decodeUtf8(fs[file])) != []
  }

  /** The trimmed fallback name is worth storing: it is neither blank nor "unknown game". */
  predicate FallbackTitleUsable(p: Platform, prefs: Prefs) {
    var title := TrimWhitespace(FallbackCurrentGameName(p, prefs));
    title != [] && title != p.unknownGame
  }

  /**
   * `writeSnapshotTitleFallback`: unless the canonical title file already holds a title, store the current
   * game's name there (UTF-8), but never a blank name or "unknown game". Only that one file can change.
   */
  function TitleFallbackWritten(fs: FileSystem, storage: Storage, p: Platform, prefs: Prefs, slot: int): (fs': FileSystem)
    ensures HasCanonicalTitle(fs, storage, p, slot) ==> fs' == fs
    ensures !HasCanonicalTitle(fs, storage, p, slot) && FallbackTitleUsable(p, prefs) ==>
      fs' == fs[SnapshotPreviewTitleFile(storage, slot) := p.encodeUtf8(TrimWhitespace(FallbackCurrentGameName(p, prefs)))]
    ensures forall path :: path != SnapshotPreviewTitleFile(storage, slot) ==>
      (path in fs' <==> path in fs) && (path in fs ==> fs'[path] == fs[path])
    ensures fs' != fs ==>
      var title := TrimWhitespace(FallbackCurrentGameName(p, prefs));
      title != [] && title != p.unknownGame && fs' == fs[SnapshotPreviewTitleFile(storage, slot) := p.encodeUtf8(title)]
  {
    var file := SnapshotPreviewTitleFile(storage, slot);
    if file in fs && TrimWhitespace(p.decodeUtf8(fs[file])) != [] then fs
    else
      var title := TrimWhitespace(FallbackCurrentGameName(p, prefs));
      if title == [] || title == p.unknownGame then fs
      else fs[file := p.encodeUtf8(title)]
  }

  /**
   * A slot without a stored title shows the current game's name once the fallback has been written, given a
   * usable name that UTF-8 decoding gives back after encoding.
   */
  lemma TitleFallbackThenRead(fs: FileSystem, storage: Storage, p: Platform, prefs: Prefs, slot: int)
    requires var title := TrimWhitespace(FallbackCurrentGameName(p, prefs)); p.decodeUtf8(p.encodeUtf8(title)) == title
    requires !HasCanonicalTitle(fs, storage, p, slot) && FallbackTitleUsable(p, prefs)
    ensures ReadSnapshotGameTitle(TitleFallbackWritten(fs, storage, p, prefs, slot), storage, p, prefs, slot)
      == TrimWhitespace(FallbackCurrentGameName(p, prefs))
  {
    var fs' := TitleFallbackWritten(fs, storage, p, prefs, slot);
    TrimWhitespaceIdempotent(FallbackCurrentGameName(p, prefs));
    CanonicalTitleShown(fs', storage, p, prefs, slot);
  }

  /** Writing the fallback a second time changes nothing. */
  lemma TitleFallbackIdempotent(fs: FileSystem, storage: Storage, p: Platform, prefs: Prefs, slot: int)
    requires var title := TrimWhitespace(FallbackCurrentGameName(p, prefs)); p.decodeUtf8(p.encodeUtf8(title)) == title
    ensures var fs' := TitleFallbackWritten(fs, storage, p, prefs, slot);
      TitleFallbackWritten(fs', storage, p, prefs, slot) == fs'
  {
    var fs' := TitleFallbackWritten(fs, storage, p, prefs, slot);
    if fs' != fs {
      var title := TrimWhitespace(FallbackCurrentGameName(p, prefs));
      var file := SnapshotPreviewTitleFile(storage, slot);
      assert file in fs' && fs'[file] == p.encodeUtf8(title);
      assert TrimWhitespace(p.decodeUtf8(fs'[file])) == title != [] by {
        TrimWhitespaceIdempotent(FallbackCurrentGameName(p, prefs));
      }
      assert HasCanonicalTitle(fs', storage, p, slot);
    }
  }

  /** The thumbnail a slot shows: the first `.thm` file found, decoded; `None` when there is none or it is rejected. */
  function SlotThumbnail(fs: FileSystem, storage: Storage, slot: int): Option<Image> {
    match ResolvedPreviewFile(fs, storage, slot, "thm")
    case Some(file) => if file in fs then DecodedThumbnail(fs[file]) else None
    case None => None
  }

  /** `decodeSnapshotThumbnail`: resolve the slot's `.thm` file, read it, and decode it. */
  method DecodeSnapshotThumbnail(fs: FileSystem, storage: Storage, slot: int) returns (thumbnail: Option<Image>)
    ensures thumbnail == SlotThumbnail(fs, storage, slot)
    ensures thumbnail.Some? ==> exists file :: file in fs && DecodedThumbnail(fs[file]) == thumbnail
  {
    var sourceFile := ResolveSnapshotPreviewFile(fs, storage, slot, "thm");
    if sourceFile.None? {
      return None;
    }
    var bytes := fs[sourceFile.value];
    thumbnail := DecodeThumbnailBytes(bytes);
  }

  /** The picker entry of one slot: its number, its label, the title it shows and its thumbnail. */
  function SlotPreviewOf(fs: FileSystem, storage: Storage, p: Platform, prefs: Prefs, slot: int): SlotPreview {
    SlotPreview(slot, p.slotLabel(slot), ReadSnapshotGameTitle(fs, storage, p, prefs, slot), SlotThumbnail(fs, storage, slot))
  }

  /** One iteration of `loadSnapshotSlotPreviews`: the slot's label, title and decoded thumbnail. */
  method LoadSlotPreview(fs: FileSystem, storage: Storage, p: Platform, prefs: Prefs, slot: int) returns (entry: SlotPreview)
    ensures entry == SlotPreviewOf(fs, storage, p, prefs, slot)
  {
    var thumbnail := DecodeSnapshotThumbnail(fs, storage, slot);
    entry := SlotPreview(slot, p.slotLabel(slot), ReadSnapshotGameTitle(fs, storage, p, prefs, slot), thumbnail);
  }

  /** The picker entries of slots 1 to `n`, in order. */
  function SlotPreviewsUpTo(fs: FileSystem, storage: Storage, p: Platform, prefs: Prefs, n: nat): seq<SlotPreview> {
    Tabulate(slot => SlotPreviewOf(fs, storage, p, prefs, slot), n)
  }

  /** There are `n` entries, and index `i` holds slot `i + 1`'s entry. */
  lemma SlotPreviewsUpToAt(fs: FileSystem, storage: Storage, p: Platform, prefs: Prefs, n: nat, i: nat)
    requires i < n
    ensures |SlotPreviewsUpTo(fs, storage, p, prefs, n)| == n
    ensures SlotPreviewsUpTo(fs, storage, p, prefs, n)[i] == SlotPreviewOf(fs, storage, p, prefs, i + 1)
  {
    TabulateAt(slot => SlotPreviewOf(fs, storage, p, prefs, slot), n, i);
  }

  /** `loadSnapshotSlotPreviews`: one preview per slot, slots 1 to 10 in order. */
  method LoadSnapshotSlotPreviews(fs: FileSystem, storage: Storage, p: Platform, prefs: Prefs)
    returns (previews: seq<SlotPreview>)
    ensures previews == SlotPreviewsUpTo(fs, storage, p, prefs, TotalSnapshotSlots)
  {
    var entries := slot => SlotPreviewOf(fs, storage, p, prefs, slot);
    previews := [];
    for slot := 1 to TotalSnapshotSlots + 1
      invariant previews == Tabulate(entries, slot - 1)
    {
      var entry := LoadSlotPreview(fs, storage, p, prefs, slot);
      assert entry == entries(slot);
      TabulateSnoc(entries, slot - 1);
      previews := previews + [entry];
    }
  }
}
