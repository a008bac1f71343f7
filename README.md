# x1box snapshot previews, gamepad menu shortcut and ISO converter entry point, in Dafny

This project models the core of the x1box Android front end for the xemu Xbox emulator:

- **The activity's gamepad shortcut** (`MainActivity.kt`). Holding Start together with Select (or Back) on a
  gamepad opens the in-game menu once per chord. The activity keeps three flags between key events. The
  activity also keeps the snapshot slot that an intent asks to load at start-up. `ComboDetector` holds a class
  `MainActivity` with those fields. Its methods update them in place and are proved against a reference step
  function `ComboStep`.
- **The slot picker's snapshot previews** (`MainActivity.kt`). For each of the ten slots the activity finds the
  `.title` and `.thm` sidecar files and shows the title and the thumbnail. Files are looked up under four name
  aliases in the app-private directory, then in the external directory. A thumbnail file is a 12-byte `X1TH`
  header followed by RGBA rows, and the decoder flips the rows. When a slot has a thumbnail but no stored
  title, the activity shows the current game's name. It takes that name from the stored disc path or disc URI.
  The modules are `SnapshotFiles` (directories, aliases, resolution), `ThumbnailFormat` (header checks and the
  decoding loop) and `SnapshotPreviews` (titles, fallback names, the per-slot loader).
- **The native sidecar writer and the snapshot extra data** (`xemu_snapshots_stub.c`). After saving a
  snapshot, the native layer sanitizes its name and writes `<name>.title` (the game title, stripped) and
  `<name>.thm` (a 320 x 240 nearest-neighbour resampling of the framebuffer). The writer puts both files under
  `<internal storage>/x1box/snapshots`. The layer also appends a title record to the snapshot stream and can
  skip such a record when loading. These parts are `SnapshotSidecar` (sanitizing, title, capture, writer) and
  `SnapshotExtraData` (a `QemuFile` class with its put/get operations, and the save and skip routines).
- **The hand-off between the two sides** (`SidecarHandoff`). A slot's snapshot is saved under the name
  `android_slot_<n>`. Then the file the native side writes is the first file the activity finds. The
  activity shows the written title and an upright 320 x 240 image of the framebuffer.
- **The Rust converter's C entry point** (`lib.rs`). The entry point checks its two C path arguments and runs
  the conversion under a panic guard. It maps the outcome to return code 0, 1 or 2 and leaves a
  NUL-terminated message in the caller's error buffer. This part is `XisoConverter`.

The filesystem is a value `map<Path, seq<byte>>`: a key that is present is a regular file. The Android
platform services the activity calls become a `Platform` value of functions and strings: `Uri.decode`, UTF-8
decoding and encoding, and the localized strings. The conversion itself becomes a function parameter of the
entry point. Integers are unbounded. Kotlin `Char` is a UTF-16 code unit, while a Dafny `char` is a Unicode
scalar value. The model treats text as a sequence of characters either way.

The thumbnail decoder is the one place where the model does not follow the code. The code rejects a
thumbnail file shorter than its header plus `width * height * 4` bytes with an `Int` sum that can wrap, so
some short files get through (see "## Findings"). `ThumbnailFormat.HeaderAcceptedAsWritten` writes that
wrap out (`ThumbnailFormat.WrapInt`). The decoder the rest of the model uses,
`ThumbnailFormat.DecodeThumbnailBytes`, makes the intended check on unbounded integers instead.

## Model

| member | source | states |
|---|---|---|
| ComboDetector.MainActivity.HandleGamepadMenuCombo | android/app/src/main/java/com/izzy2lost/x1box/MainActivity.kt:297-339 | the new flags, the return value and whether the menu was shown are exactly the reference step `ComboStep` applied to the old flags; the start-up slot is unchanged |
| ComboDetector.MainActivity.OnCreate | android/app/src/main/java/com/izzy2lost/x1box/MainActivity.kt:55-60 | the requested slot (0 when the extra is missing) is kept exactly when it is between 1 and 10; the combo flags are unchanged |
| ComboDetector.MainActivity.constructor | android/app/src/main/java/com/izzy2lost/x1box/MainActivity.kt:49-52 | a new activity holds no button, has not fired the chord and has no start-up slot |
| ComboDetector.IsGamepadKeyEvent | android/app/src/main/java/com/izzy2lost/x1box/MainActivity.kt:341-345 | an event is a gamepad event exactly when both gamepad bits or both joystick bits of its source are set; its source is then of the button or the joystick class |
| ComboDetector.GamepadEventMoreBits | android/app/src/main/java/com/izzy2lost/x1box/MainActivity.kt:341-345 | setting more source bits keeps a gamepad event a gamepad event |
| ComboDetector.KeyboardAndDpadAreNotGamepad | android/app/src/main/java/com/izzy2lost/x1box/MainActivity.kt:341-345 | a keyboard or d-pad key is not a gamepad event |
| ComboDetector.NonChordEventsIgnored | android/app/src/main/java/com/izzy2lost/x1box/MainActivity.kt:298-307 | an event that is not a gamepad Start/Select/Back key returns false and changes no flag |
| ComboDetector.ComboStepConsistent | android/app/src/main/java/com/izzy2lost/x1box/MainActivity.kt:309-335 | every step keeps the invariant "triggered implies both buttons held" |
| ComboDetector.MenuOpensExactlyOnChordPress | android/app/src/main/java/com/izzy2lost/x1box/MainActivity.kt:318-323 | the menu opens if and only if a non-repeated gamepad press of one chord button comes while the other is held and the chord has not fired |
| ComboDetector.HandledMeansChordHeld | android/app/src/main/java/com/izzy2lost/x1box/MainActivity.kt:338 | the event is consumed if and only if it is a chord event and the chord stands fired afterwards, and then both buttons are held |
| ComboDetector.ReleaseRearms | android/app/src/main/java/com/izzy2lost/x1box/MainActivity.kt:325-335 | releasing Start, Select or Back clears the fired flag and the event is not consumed |
| ComboDetector.HeldChordOpensMenuOnce | android/app/src/main/java/com/izzy2lost/x1box/MainActivity.kt:318-335 | once the chord has fired, any run of events without a chord release opens the menu zero more times and leaves it fired |
| SnapshotFiles.SnapshotPreviewDirs | android/app/src/main/java/com/izzy2lost/x1box/MainActivity.kt:352-359 | the primary directory comes first, the directories are pairwise distinct, and they are exactly the primary one and (when there is one) the external one |
| SnapshotFiles.SlotName | android/app/src/main/java/com/izzy2lost/x1box/MainActivity.kt:350 | the canonical name is one path component without a dot, starting `android_slot_` |
| SnapshotFiles.SlotNameInjective | android/app/src/main/java/com/izzy2lost/x1box/MainActivity.kt:350 | different slots have different names |
| SnapshotFiles.SnapshotPreviewDir | android/app/src/main/java/com/izzy2lost/x1box/MainActivity.kt:352 | the primary directory is `x1box/snapshots` inside the files directory |
| SnapshotFiles.SlotNameAliases | android/app/src/main/java/com/izzy2lost/x1box/MainActivity.kt:350-369 | four aliases, the canonical `android_slot_<n>` first |
| SnapshotFiles.SlotNameAliasesDistinct | android/app/src/main/java/com/izzy2lost/x1box/MainActivity.kt:362-368 | the four aliases are pairwise different, so the ordered set keeps all four |
| SnapshotFiles.FirstAliasMatchNone | android/app/src/main/java/com/izzy2lost/x1box/MainActivity.kt:373-378 | the inner loop finds nothing if and only if no alias's file exists in that directory |
| SnapshotFiles.FirstAliasMatchIndex | android/app/src/main/java/com/izzy2lost/x1box/MainActivity.kt:373-378 | the inner loop's file is the existing file of some alias and no earlier alias's file exists |
| SnapshotFiles.ResolveNone | android/app/src/main/java/com/izzy2lost/x1box/MainActivity.kt:371-381 | resolution gives nothing if and only if no candidate in any directory exists |
| SnapshotFiles.ResolveIndex | android/app/src/main/java/com/izzy2lost/x1box/MainActivity.kt:371-381 | a resolved file is an existing candidate and no candidate before it (directories outermost, aliases inner) exists |
| SnapshotFiles.ResolveIsFirstMatch | android/app/src/main/java/com/izzy2lost/x1box/MainActivity.kt:371-381 | resolution returns a file if and only if that file is the first existing candidate in search order |
| SnapshotFiles.ResolveSnapshotPreviewFile | android/app/src/main/java/com/izzy2lost/x1box/MainActivity.kt:371-381 | the nested loop returns the resolved file, which exists |
| SnapshotFiles.SnapshotPreviewTitleFile | android/app/src/main/java/com/izzy2lost/x1box/MainActivity.kt:383-384 | the canonical title file is the first candidate resolution tries |
| SnapshotFiles.CanonicalFileResolvesFirst | android/app/src/main/java/com/izzy2lost/x1box/MainActivity.kt:371-381 | an existing canonical file in the primary directory shadows every other candidate |
| Sequences.TrimKeepsMiddle | android/app/src/main/java/com/izzy2lost/x1box/MainActivity.kt:395 | trimming removes only the two runs: the result is the slice right after the leading run, with nothing but dropped elements before and after it |
| KotlinText.TrimWhitespace | android/app/src/main/java/com/izzy2lost/x1box/MainActivity.kt:395 | `trim()` is empty if and only if the text is blank, and otherwise neither starts nor ends with whitespace |
| KotlinText.TrimWhitespaceKeepsMiddle | android/app/src/main/java/com/izzy2lost/x1box/MainActivity.kt:395 | `trim()` is the slice right after the leading whitespace, with only whitespace after it: it removes the two runs and nothing else |
| KotlinText.TrimWhitespaceIdempotent | android/app/src/main/java/com/izzy2lost/x1box/MainActivity.kt:418 | trimming a trimmed text changes nothing |
| KotlinText.SubstringAfterLast | android/app/src/main/java/com/izzy2lost/x1box/MainActivity.kt:391 | the result is a delimiter-free suffix that is the whole text or follows a delimiter |
| KotlinText.AfterLastUnique | android/app/src/main/java/com/izzy2lost/x1box/MainActivity.kt:391 | that suffix is the only one with those properties |
| KotlinText.SubstringAfterLastAppend | android/app/src/main/java/com/izzy2lost/x1box/MainActivity.kt:391 | appending delimiter-free text extends the result by exactly that text |
| KotlinText.SubstringBeforeLast | android/app/src/main/java/com/izzy2lost/x1box/MainActivity.kt:395 | without the delimiter the result is the fallback; with it, the result is the prefix before the last delimiter |
| KotlinText.NatToString | android/app/src/main/java/com/izzy2lost/x1box/MainActivity.kt:350 | the decimal text is non-empty digits with no leading zero |
| KotlinText.NatToStringValue | android/app/src/main/java/com/izzy2lost/x1box/MainActivity.kt:350 | reading the digits back gives the number |
| KotlinText.NatToStringInjective | android/app/src/main/java/com/izzy2lost/x1box/MainActivity.kt:350 | different numbers give different digit strings |
| KotlinText.IntToString | android/app/src/main/java/com/izzy2lost/x1box/MainActivity.kt:350 | the text is digits, with a minus sign at its first position exactly when the number is negative, followed by at least one digit |
| KotlinText.IntToStringInjective | android/app/src/main/java/com/izzy2lost/x1box/MainActivity.kt:350 | different numbers print differently |
| SnapshotPreviews.FileName | android/app/src/main/java/com/izzy2lost/x1box/MainActivity.kt:401 | the name of a path has no `/` |
| SnapshotPreviews.FileNameOfChild | android/app/src/main/java/com/izzy2lost/x1box/MainActivity.kt:401 | the name of `File(dir, leaf)` is `leaf` |
| SnapshotPreviews.ExtractDisplayName | android/app/src/main/java/com/izzy2lost/x1box/MainActivity.kt:386-397 | a missing or blank name gives none; a name it gives is non-empty, trimmed and free of `/` and `:` |
| SnapshotPreviews.AfterLastOfTerminated | android/app/src/main/java/com/izzy2lost/x1box/MainActivity.kt:391 | a text ending in the delimiter has nothing after its last delimiter |
| SnapshotPreviews.LeafAfterSeparators | android/app/src/main/java/com/izzy2lost/x1box/MainActivity.kt:391 | after a directory or volume prefix, the two cuts leave the leaf |
| SnapshotPreviews.StemBeforeExtension | android/app/src/main/java/com/izzy2lost/x1box/MainActivity.kt:395 | cutting `stem.ext` at its last dot leaves `stem` |
| SnapshotPreviews.DisplayNameOfFileName | android/app/src/main/java/com/izzy2lost/x1box/MainActivity.kt:386-397 | a decoded name `prefix/stem.ext` displays as `stem` trimmed, and as none when the stem is blank |
| SnapshotPreviews.DisplayNameOfDotlessLeaf | android/app/src/main/java/com/izzy2lost/x1box/MainActivity.kt:386-397 | a last segment with no `.` (after `/` or `:`, as in `msf:1234`) displays as the whole segment trimmed, and as none when it is blank |
| SnapshotPreviews.FallbackCurrentGameName | android/app/src/main/java/com/izzy2lost/x1box/MainActivity.kt:399-410 | the display name of the disc path wins; without one, that of the disc URI; without either, "unknown game"; a name is non-empty, trimmed and free of separators |
| SnapshotPreviews.FallbackNameFromDvdUri | android/app/src/main/java/com/izzy2lost/x1box/MainActivity.kt:399-410 | with no disc path and a disc URI ending in `stem.ext`, the fallback is `stem` |
| SnapshotPreviews.FallbackNameFromDvdPath | android/app/src/main/java/com/izzy2lost/x1box/MainActivity.kt:401-404 | with a disc image at `dir/stem.ext`, the fallback is `stem` whatever the URI entry holds |
| SnapshotPreviews.FallbackNameUnknownWithoutPrefs | android/app/src/main/java/com/izzy2lost/x1box/MainActivity.kt:399-410 | with each preference entry absent or blank, the fallback is "unknown game" |
| SnapshotPreviews.StoredTitle | android/app/src/main/java/com/izzy2lost/x1box/MainActivity.kt:433-440 | the stored title is already trimmed |
| SnapshotPreviews.ReadSnapshotGameTitle | android/app/src/main/java/com/izzy2lost/x1box/MainActivity.kt:432-451 | a non-empty stored title wins; otherwise a slot with a thumbnail shows the fallback name and one without shows "empty slot"; never empty when the localized strings are not |
| SnapshotPreviews.EmptySlotWithoutPreviewFiles | android/app/src/main/java/com/izzy2lost/x1box/MainActivity.kt:446-450 | with no title and no thumbnail under any alias in any directory, the slot shows "empty slot" |
| SnapshotPreviews.CanonicalTitleShown | android/app/src/main/java/com/izzy2lost/x1box/MainActivity.kt:432-444 | a non-blank canonical title file is shown, trimmed |
| SnapshotPreviews.TitleFallbackWritten | android/app/src/main/java/com/izzy2lost/x1box/MainActivity.kt:412-430 | an existing non-blank canonical title is kept; otherwise a non-blank trimmed fallback name other than "unknown game" is written, UTF-8 encoded, to the canonical title file; nothing else ever changes |
| SnapshotPreviews.TitleFallbackThenRead | android/app/src/main/java/com/izzy2lost/x1box/MainActivity.kt:412-444 | a slot without a stored title and with a usable fallback name shows that name after the fallback is written (given that UTF-8 decoding undoes encoding) |
| SnapshotPreviews.TitleFallbackIdempotent | android/app/src/main/java/com/izzy2lost/x1box/MainActivity.kt:412-430 | writing the fallback twice is the same as writing it once |
| SnapshotPreviews.DecodeSnapshotThumbnail | android/app/src/main/java/com/izzy2lost/x1box/MainActivity.kt:453-455 | the thumbnail is the decoded resolved `.thm` file, and a shown thumbnail comes from an existing file |
| SnapshotPreviews.LoadSlotPreview | android/app/src/main/java/com/izzy2lost/x1box/MainActivity.kt:505-511 | one entry: the slot, its label, the title `ReadSnapshotGameTitle` gives and the thumbnail `SlotThumbnail` gives |
| SnapshotPreviews.LoadSnapshotSlotPreviews | android/app/src/main/java/com/izzy2lost/x1box/MainActivity.kt:503-512 | the previews are exactly `SlotPreviewsUpTo` of 10: the entries of slots 1 to 10, in slot order |
| SnapshotPreviews.SlotPreviewsUpToAt | android/app/src/main/java/com/izzy2lost/x1box/MainActivity.kt:503-512 | the first `n` entries are `n` long and index `i` holds slot `i + 1`'s entry: label, title and thumbnail |
| ThumbnailFormat.OpaquePixelChannels | android/app/src/main/java/com/izzy2lost/x1box/MainActivity.kt:492-495 | the packed pixel has alpha 0xFF and gives back R, G and B |
| ThumbnailFormat.SourceOffset | android/app/src/main/java/com/izzy2lost/x1box/MainActivity.kt:488-496 | a stored pixel's four bytes lie between the header and the end of the declared payload |
| ThumbnailFormat.DestIndex | android/app/src/main/java/com/izzy2lost/x1box/MainActivity.kt:490 | the flipped destination index lies inside the image |
| ThumbnailFormat.DecodedThumbnailFlipsRows | android/app/src/main/java/com/izzy2lost/x1box/MainActivity.kt:487-500 | stored row `y` becomes image row `height - 1 - y`, every pixel opaque with the stored R, G, B |
| ThumbnailFormat.DecodedPixelAtDest | android/app/src/main/java/com/izzy2lost/x1box/MainActivity.kt:490-495 | the decoded pixel at the flipped destination of a stored pixel is that stored pixel, made opaque |
| ThumbnailFormat.DecodeRow | android/app/src/main/java/com/izzy2lost/x1box/MainActivity.kt:490-497 | one row of the inner loop fills exactly its flipped image row and moves the cursor by `4 * width` |
| ThumbnailFormat.DecodePixels | android/app/src/main/java/com/izzy2lost/x1box/MainActivity.kt:487-498 | the nested loop yields `width * height` pixels, each the decoded pixel of its index |
| ThumbnailFormat.DecodeThumbnailBytes | android/app/src/main/java/com/izzy2lost/x1box/MainActivity.kt:456-500 | the result is absent if and only if a header check fails; otherwise it is the declared size with rows flipped and alpha forced to 0xFF |
| ThumbnailFormat.PreviewHeader | android/app/src/main/cpp/xemu_snapshots_stub.c:32-38 | the header is twelve bytes |
| ThumbnailFormat.PreviewHeaderFields | android/app/src/main/cpp/xemu_snapshots_stub.c:222-237 | a written file reads back with magic `X1TH`, version 1, its width and height, 4 channels and its payload |
| ThumbnailFormat.ThumbnailRoundTrip | android/app/src/main/java/com/izzy2lost/x1box/MainActivity.kt:456-500 | encoding a payload and decoding it gives the declared size, with payload row `y` in image row `height - 1 - y` |
| ThumbnailFormat.PayloadLengthCheckOverflows | android/app/src/main/java/com/izzy2lost/x1box/MainActivity.kt:483 | a bare 12-byte header declaring 14351 x 37410 pixels passes the check as written but fails the intended check |
| CBytes.CStr | android/rust/xiso_converter/src/lib.rs:95 | a C string is the buffer's prefix before the first NUL, and has no NUL |
| CBytes.StrStrip | android/app/src/main/cpp/xemu_snapshots_stub.c:98 | the result is empty if and only if the text is all ASCII white space, and otherwise neither starts nor ends with it |
| CBytes.StrStripKeepsMiddle | android/app/src/main/cpp/xemu_snapshots_stub.c:98 | `g_strstrip` leaves the slice right after the leading ASCII white space, with only white space after it: it removes the two runs and nothing else |
| CBytes.Le16 | android/app/src/main/cpp/xemu_snapshots_stub.c:34-37 | a `uint16_t` field is two bytes |
| CBytes.ReadLe16OfLe16 | android/app/src/main/java/com/izzy2lost/x1box/MainActivity.kt:467-471 | reading a little-endian short gives back the written value |
| CBytes.Be32 | android/app/src/main/cpp/xemu_snapshots_stub.c:312-315 | a big-endian word is four bytes |
| CBytes.ReadBe32OfBe32 | android/app/src/main/cpp/xemu_snapshots_stub.c:331-338 | reading a big-endian word gives back the written value |
| SnapshotSidecar.SanitizeBytes | android/app/src/main/cpp/xemu_snapshots_stub.c:53-60 | same length, every byte safe; safe bytes kept, others become `_` |
| SnapshotSidecar.StrlcpyResult | android/app/src/main/cpp/xemu_snapshots_stub.c:49 | the copied string is the longest prefix of the source that fits before the NUL |
| SnapshotSidecar.SanitizedName | android/app/src/main/cpp/xemu_snapshots_stub.c:40-67 | the name fits the buffer and is safe, and is non-empty when `out_len > 1`; a NULL or empty input (or `out_len == 1`) gives `snapshot` cut to `out_len - 1` bytes; any other input gives the input cut to `out_len - 1` bytes with unsafe bytes replaced |
| SnapshotSidecar.SafeNameUnchanged | android/app/src/main/cpp/xemu_snapshots_stub.c:53-60 | a non-empty safe name that fits comes through unchanged |
| SnapshotSidecar.SanitizedNameIdempotent | android/app/src/main/cpp/xemu_snapshots_stub.c:40-67 | sanitizing twice is sanitizing once |
| SnapshotSidecar.StrlCopy | android/app/src/main/cpp/xemu_snapshots_stub.c:49 | the buffer holds the truncated copy and its terminator; the rest is untouched |
| SnapshotSidecar.SanitizeSnapshotName | android/app/src/main/cpp/xemu_snapshots_stub.c:40-67 | the buffer holds the sanitized name and a NUL, later bytes untouched; nothing happens for a null buffer or zero length |
| SnapshotSidecar.GetSnapshotTitle | android/app/src/main/cpp/xemu_snapshots_stub.c:88-108 | the title is non-empty and stripped; the stripped certificate title when there is one, else `Unknown Game` |
| SnapshotSidecar.PreviewByteIndex | android/app/src/main/cpp/xemu_snapshots_stub.c:161-162 | a destination byte lies inside the 320 x 240 x 4 thumbnail |
| SnapshotSidecar.FramebufferByteIndex | android/app/src/main/cpp/xemu_snapshots_stub.c:157-160 | the sampled source byte lies inside the framebuffer |
| SnapshotSidecar.ResampleRow | android/app/src/main/cpp/xemu_snapshots_stub.c:157-164 | one thumbnail row holds the sampled framebuffer pixels; the other rows are untouched |
| SnapshotSidecar.SourceByte | android/app/src/main/cpp/xemu_snapshots_stub.c:157-160 | thumbnail byte `i` is copied from the framebuffer byte sampled for its pixel and channel, which lies inside the framebuffer |
| SnapshotSidecar.ResampledPixelsUnique | android/app/src/main/cpp/xemu_snapshots_stub.c:156-165 | the reference resampling is a resampling, and it is the only byte sequence that is one |
| SnapshotSidecar.CaptureSnapshotThumbnail | android/app/src/main/cpp/xemu_snapshots_stub.c:110-178 | the capture is `None` without a framebuffer or for an empty viewport, and otherwise exactly the reference nearest-neighbour resampling |
| SnapshotSidecar.SafeSnapshotName | android/app/src/main/cpp/xemu_snapshots_stub.c:182-197 | the name read back from the 128-byte buffer is the sanitized name |
| SnapshotSidecar.WriteSidecarFiles | android/app/src/main/cpp/xemu_snapshots_stub.c:204-243 | the title file holds the title; after a successful capture the thumbnail file holds the header and the resampled pixels; no other file changes |
| SnapshotSidecar.WriteSnapshotPreviewSidecar | android/app/src/main/cpp/xemu_snapshots_stub.c:180-257 | nothing changes without a name or a storage path; otherwise the files are those above, under the sanitized name in `<storage>/x1box/snapshots` |
| SnapshotExtraData.QemuFile.constructor | android/app/src/main/cpp/xemu_snapshots_stub.c:303 | a stream over the given bytes at the given position, without error |
| SnapshotExtraData.QemuFile.PutByte | android/app/src/main/cpp/xemu_snapshots_stub.c:316 | appends one byte |
| SnapshotExtraData.QemuFile.PutBe32 | android/app/src/main/cpp/xemu_snapshots_stub.c:312-315 | appends the word's four big-endian bytes |
| SnapshotExtraData.QemuFile.PutBuffer | android/app/src/main/cpp/xemu_snapshots_stub.c:318 | appends the bytes |
| SnapshotExtraData.QemuFile.GetByte | android/app/src/main/cpp/xemu_snapshots_stub.c:331 | reads the byte at the position and advances, or at the end gives 0 and sets the error |
| SnapshotExtraData.QemuFile.GetBe32 | android/app/src/main/cpp/xemu_snapshots_stub.c:331-338 | four byte reads, most significant first |
| SnapshotExtraData.QemuFile.Skip | android/app/src/main/cpp/xemu_snapshots_stub.c:333 | moves by `n` only when the target is not past the end |
| SnapshotExtraData.QemuFile.GetBuffer | android/app/src/main/cpp/xemu_snapshots_stub.c:342 | reads what is there up to `size` bytes; a short read sets the error |
| SnapshotExtraData.RecordHeader | android/app/src/main/cpp/xemu_snapshots_stub.c:312-315 | the record's first four words are sixteen bytes |
| SnapshotExtraData.ExtraDataRecord | android/app/src/main/cpp/xemu_snapshots_stub.c:303-324 | the record starts with the magic and version words, and its size word counts exactly the bytes after the first twelve |
| SnapshotExtraData.RecordHeaderFields | android/app/src/main/cpp/xemu_snapshots_stub.c:312-315 | the first three words of a record read back as the magic, the version and the size field |
| SnapshotExtraData.RecordTitleRoundTrip | android/app/src/main/cpp/xemu_snapshots_stub.c:306-319 | the length byte and the bytes after it give back the title cut to 255 bytes |
| SnapshotExtraData.SaveExtraData | android/app/src/main/cpp/xemu_snapshots_stub.c:303-324 | appends the record for the game's title; position and error are unchanged |
| SnapshotExtraData.PutTitleRecord | android/app/src/main/cpp/xemu_snapshots_stub.c:306-320 | appends the record for that title |
| SnapshotExtraData.PutRecordHeader | android/app/src/main/cpp/xemu_snapshots_stub.c:312-315 | appends the four header words |
| SnapshotExtraData.OffsetExtraData | android/app/src/main/cpp/xemu_snapshots_stub.c:326-347 | always true; the position and error flag become those of the reference step, the data is unchanged |
| SnapshotExtraData.GetBe32InBounds | android/app/src/main/cpp/xemu_snapshots_stub.c:331 | with four bytes available, the read is the big-endian word there, without error |
| SnapshotExtraData.OffsetSkipsSavedRecord | android/app/src/main/cpp/xemu_snapshots_stub.c:303-347 | skipping a saved record consumes exactly that record, without error, whatever follows it |
| SnapshotExtraData.OffsetLeavesForeignData | android/app/src/main/cpp/xemu_snapshots_stub.c:331-335 | a stream with at least four bytes left that do not spell the magic word is left where it was, error flag included |
| SnapshotExtraData.OffsetRewindsShortStream | android/app/src/main/cpp/xemu_snapshots_stub.c:331-335 | with fewer than four bytes left, the error is set and the position ends four bytes before the end of the data, behind where reading started |
| SnapshotExtraData.SaveThenOffset | android/app/src/main/cpp/xemu_snapshots_stub.c:303-347 | saving a record and then skipping it ends at the end of the record, without error |
| SidecarHandoff.SlotNameBytes | android/app/src/main/java/com/izzy2lost/x1box/MainActivity.kt:350 | a slot's name is a non-empty safe name shorter than the 128-byte buffer, and reads back as the Kotlin name |
| SidecarHandoff.Latin1SidecarPath | android/app/src/main/cpp/xemu_snapshots_stub.c:201-202 | read as text, the native `<dir>/<name>.<ext>` is the file `<name>.<ext>` of `<dir>` |
| SidecarHandoff.PreviewDirIsCanonical | android/app/src/main/cpp/xemu_snapshots_stub.c:78 | the native preview directory, read as text, is the activity's primary snapshot directory when the storage path is the files directory |
| SidecarHandoff.SidecarPathIsCanonical | android/app/src/main/cpp/xemu_snapshots_stub.c:201-202 | the native path of a slot's sidecar is the activity's canonical candidate when the storage path is the files directory |
| SidecarHandoff.CapturedThumbnailDecodesUpright | android/app/src/main/cpp/xemu_snapshots_stub.c:156-165 | a captured thumbnail decodes to 320 x 240 with row `239 - y` holding the framebuffer row sampled for `y` |
| SidecarHandoff.CanonicalFilesShown | android/app/src/main/java/com/izzy2lost/x1box/MainActivity.kt:432-455 | with a title in the canonical `.title` file and a thumbnail in the canonical `.thm` file, the slot shows that title, trimmed, and that file's image |
| SidecarHandoff.SidecarFilesAreCanonical | android/app/src/main/cpp/xemu_snapshots_stub.c:201-243 | the files the writer leaves for slot `n` are the slot's canonical `.title` and `.thm` candidates |
| SidecarHandoff.WrittenSidecarShown | android/app/src/main/cpp/xemu_snapshots_stub.c:204-243 | after the writer stores a slot's files, the activity shows that title, trimmed, and that thumbnail file's image |
| XisoConverter.ErrBufContents | android/rust/xiso_converter/src/lib.rs:75-87 | the buffer holds the message cut to `len - 1` bytes, then zeros; its last byte is NUL |
| XisoConverter.ErrBufReadsBack | android/rust/xiso_converter/src/lib.rs:84-86 | read as a C string, the buffer gives the message cut to `len - 1` bytes when the message has no NUL |
| XisoConverter.EmptyMessageZeroesBuffer | android/rust/xiso_converter/src/lib.rs:82 | an empty message leaves the whole buffer zero |
| XisoConverter.WriteErrBuf | android/rust/xiso_converter/src/lib.rs:75-87 | nothing for a null buffer or zero length; otherwise the first `len` bytes become the buffer contents above and the rest is untouched |
| XisoConverter.CPathToOwned | android/rust/xiso_converter/src/lib.rs:89-100 | a null pointer fails with `<arg> was null`; the result is the string exactly when it is valid UTF-8, otherwise `<arg> was not valid UTF-8` |
| XisoConverter.GuardedOutcome | android/rust/xiso_converter/src/lib.rs:109-113 | the input path is checked first and its error wins; then the output path's error; the conversion runs only when both paths are usable |
| XisoConverter.ReturnCode | android/rust/xiso_converter/src/lib.rs:115-128 | code 0 if and only if converted, 1 if and only if failed, 2 if and only if panicked |
| XisoConverter.NullInputPathFailsFirst | android/rust/xiso_converter/src/lib.rs:110 | a null input path fails with `input_path was null` and code 1, whatever the conversion would do |
| XisoConverter.NullOutputPathFails | android/rust/xiso_converter/src/lib.rs:111 | with a usable input path, a null output path fails with `output_path was null` |
| XisoConverter.ValidPathsRunConversion | android/rust/xiso_converter/src/lib.rs:109-113 | with two usable paths the outcome is the conversion's own |
| XisoConverter.XisoConvertIsoToXiso | android/rust/xiso_converter/src/lib.rs:102-129 | the code is that of the guarded outcome and the buffer holds that outcome's message; bytes past `len` are untouched |
| XisoConverter.SuccessLeavesEmptyMessage | android/rust/xiso_converter/src/lib.rs:116-118 | on success the code is 0 and the buffer is all zero, the empty C string |

## Left out

- The UI: dialogs, the in-game menu itself (`showInGameMenu` is the `menuShown` output), bitmaps (a decoded
  thumbnail is a width, a height and ARGB pixels), the on-screen controller and input-device listeners.
- Threads and locking: the snapshot request hand-off between the JNI thread and the emulator thread
  (`dispatch_snapshot`, `xemu_android_process_snapshot_request`) and the activity's background loading.
- Real I/O failures: `runCatching` around file reads and writes, `fopen`/`fwrite` failures, and
  `g_mkdir_with_parents` or `mkdirs` failing. Files are read and written whole, as map updates.
- SnapshotPreviews.TitleFallbackWritten: models `writeSnapshotTitleFallback` on the filesystem value. It
  returns the new map and does not update a mutable filesystem in place.
- SnapshotFiles.SnapshotPreviewDirs: compares directories by their path text and does not model
  `absolutePath` normalization.
- `Uri.decode`, UTF-8 decoding and encoding, and UTF-8 validation are uninterpreted function parameters. The
  UTF-16 to UTF-8 conversion of the certificate title (`g_utf16_to_utf8`) is outside the model, which takes
  its result or its failure as the `xbeTitle` argument.
- C paths are bytes and Kotlin paths are UTF-16 text. They are identified one byte per character, which is
  exact for ASCII paths only.
- The GL read-back (`glReadPixels`, pack alignment, `glGetError`) is the `Framebuffer` argument. A GL error
  and a missing context or display texture all mean the capture yields nothing.
- SnapshotExtraData.QemuFile: the stream is one in-memory byte sequence. QEMU's buffering, its file
  backends and its I/O errors are not modelled, and `qemu_file_skip` and `qemu_get_buffer` follow QEMU's
  behaviour on a single buffer.
- `XEMU_SNAPSHOT_DATA_MAGIC` and `XEMU_SNAPSHOT_DATA_VERSION` are defined in `ui/xemu-snapshots.h`, which is
  not part of this model. The model uses 0x78656D75 (`xemu`) and 1. Only `SnapshotExtraData.OffsetRewindsShortStream` depends on
  them, and only on the magic's last byte not being 0.
- The `xemu_snapshots_dirty` flag, the snapshot list stub, `xemu_get_currently_loaded_disc_path`, and
  `xemu_snapshots_save`, `_load` and `_delete` call into QEMU and are not modelled.
- `convert_iso_to_xiso` and `canonical_or_absolute` (the ISO parsing and XISO writing) are the `convert`
  parameter of `XisoConverter.XisoConvertIsoToXiso`. A panic is one of its outcomes. `xiso_converter_jni.cpp`
  and `XisoConverterNative.kt` only forward to the entry point and are not modelled.
- ThumbnailFormat.DecodeThumbnailBytes: makes the intended payload length check on unbounded integers. It
  does not reproduce the `Int` overflow at `MainActivity.kt` line 483, which `HeaderAcceptedAsWritten` and
  `PayloadLengthCheckOverflows` exhibit (see "## Findings").
- XisoConverter.WriteErrBuf: assumes the caller's buffer really has `err_buf_len` writable bytes, as the
  source's safety comment demands. The source cannot check this either.

## Findings

| source | as written | input that shows it | evidently intended | confidence | as-written member | corrected member |
|---|---|---|---|---|---|---|
| android/app/src/main/java/com/izzy2lost/x1box/MainActivity.kt:483 | `bytes.size < SNAPSHOT_PREVIEW_HEADER_SIZE + pixelBytes` is an `Int` sum. It wraps to a negative value when `pixelBytes > Int.MAX_VALUE - 12`, so the length check passes | a 12-byte `.thm` file declaring width 14351, height 37410 and 4 channels: `pixelBytes` = 2147483640 passes the guard at lines 477-480, and `12 + pixelBytes` wraps negative. The decoder then goes on to allocate 536870910 pixels and to read past the end of the 12-byte array, so it throws (out of memory or index out of bounds) where a rejected file gives `null` | reject every file shorter than its header plus `width * height * 4` bytes, for example by comparing against `pixelBytesLong` | not executed | ThumbnailFormat.PayloadLengthCheckOverflows | ThumbnailFormat.DecodeThumbnailBytes |
