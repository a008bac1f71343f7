/**
 * The hand-off between the native sidecar writer and the activity's slot previews: a snapshot named
 * `android_slot_<n>` whose preview directory is built from the app's files directory lands exactly on the
 * canonical files the activity looks for first.
 */
module SidecarHandoff {
  import opened Wrappers
  import opened KotlinText
  import opened CBytes
  import opened SnapshotFiles
  import opened ThumbnailFormat
  import opened SnapshotSidecar
  import opened SnapshotPreviews

  /** At most two decimal digits for a number below 100. */
  lemma ShortNumber(n: nat)
    requires n < 100
    ensures |NatToString(n)| <= 2
  {
    if n >= 10 {
      assert NatToString(n) == NatToString(n / 10) + ['0' + ((n % 10) as char)];
    }
  }

  /** The name of slot `slot` as the native side receives it: the bytes of `android_slot_<slot>`. */
  function SlotNameBytes(slot: int): (name: CString)
    requires 1 <= slot <= TotalSnapshotSlots
    ensures Latin1(name) == SlotName(slot)
    ensures name != [] && IsSafeName(name) && |name| < SafeNameSize
  {
    var s := SlotName(slot);
    ShortNumber(slot);
    assert IsAscii(s);
    var bytes := AsciiBytes(s);
    Latin1OfAscii(s);
    assert IsSafeName(bytes);
    bytes
  }

  /** Appending an ASCII text's bytes appends the text. */
  lemma Latin1AppendAscii(a: seq<byte>, t: string)
    requires IsAscii(t)
    ensures Latin1(a + AsciiBytes(t)) == Latin1(a) + t
  {
    Latin1Append(a, AsciiBytes(t));
    Latin1OfAscii(t);
  }

  /** Read as text, the native `<dir>/<name>.<extension>` is the file `<name>.<extension>` of directory `<dir>`. */
  lemma Latin1SidecarPath(dir: CString, name: CString, extension: CString)
    ensures Latin1(SidecarPath(dir, name, extension)) == Child(Latin1(dir), Latin1(name) + "." + Latin1(extension))
  {
    var withSlash := dir + AsciiBytes("/");
    var withName := withSlash + name;
    var withDot := withName + AsciiBytes(".");
    assert Latin1(withSlash) == Latin1(dir) + "/" by {
      Latin1AppendAscii(dir, "/");
    }
    assert Latin1(withName) == Latin1(dir) + "/" + Latin1(name) by {
      Latin1Append(withSlash, name);
    }
    assert Latin1(withDot) == Latin1(dir) + "/" + Latin1(name) + "." by {
      Latin1AppendAscii(withName, ".");
    }
    assert Latin1(withDot + extension) == Latin1(dir) + "/" + Latin1(name) + "." + Latin1(extension) by {
      Latin1Append(withDot, extension);
    }
  }

  /** The native preview directory, read as text, is the activity's preview directory. */
  lemma PreviewDirIsCanonical(storage: Storage, internalStorage: CString)
    requires Latin1(internalStorage) == storage.filesDir
    ensures Latin1(PreviewDirBytes(internalStorage)) == SnapshotPreviewDir(storage)
  {
    Latin1AppendAscii(internalStorage, "/x1box/snapshots");
    assert "/" + "x1box/snapshots" == "/x1box/snapshots";
  }

  /** The native sidecar path of a slot's file is the activity's canonical candidate for it. */
  lemma SidecarPathIsCanonical(storage: Storage, internalStorage: CString, slot: int, extension: CString)
    requires Latin1(internalStorage) == storage.filesDir
    requires 1 <= slot <= TotalSnapshotSlots
    ensures Latin1(SidecarPath(PreviewDirBytes(internalStorage), SlotNameBytes(slot), extension))
      == CandidatePath(SnapshotPreviewDir(storage), SlotName(slot), Latin1(extension))
  {
    Latin1SidecarPath(PreviewDirBytes(internalStorage), SlotNameBytes(slot), extension);
    PreviewDirIsCanonical(storage, internalStorage);
  }

  /**
   * The thumbnail a successful capture writes decodes to a 320 x 240 image whose row `239 - y` is resampled
   * row `y` of the framebuffer (which the read-back delivers bottom row first), every pixel opaque with the
   * framebuffer's R, G, B.
   */
  lemma CapturedThumbnailDecodesUpright(fb: Framebuffer, pixels: seq<byte>)
    requires fb.width > 0 && fb.height > 0 && WellFormed(fb) && IsResampled(fb, pixels)
    ensures var image := DecodedThumbnail(ThumbnailFile(PreviewWidth, PreviewHeight, pixels));
      && image.Some? && image.value.width == PreviewWidth && image.value.height == PreviewHeight
      && forall y, x :: 0 <= y < PreviewHeight && 0 <= x < PreviewWidth ==>
           image.value.pixels[DestIndex(PreviewWidth, PreviewHeight, y, x)]
             == OpaquePixel(fb.pixels[FramebufferByteIndex(fb.width, fb.height, y, x, 0)],
                            fb.pixels[FramebufferByteIndex(fb.width, fb.height, y, x, 1)],
                            fb.pixels[FramebufferByteIndex(fb.width, fb.height, y, x, 2)])
  {
    var file := ThumbnailFile(PreviewWidth, PreviewHeight, pixels);
    ThumbnailRoundTrip(PreviewWidth, PreviewHeight, pixels);
    var image := DecodedThumbnail(file).value;
    forall y, x | 0 <= y < PreviewHeight && 0 <= x < PreviewWidth
      ensures image.pixels[DestIndex(PreviewWidth, PreviewHeight, y, x)]
        == OpaquePixel(fb.pixels[FramebufferByteIndex(fb.width, fb.height, y, x, 0)],
                       fb.pixels[FramebufferByteIndex(fb.width, fb.height, y, x, 1)],
                       fb.pixels[FramebufferByteIndex(fb.width, fb.height, y, x, 2)])
    {
      var offset := SourceOffset(PreviewWidth, PreviewHeight, y, x) - HeaderSize;
      assert offset == PreviewByteIndex(y, x, 0);
      assert offset + 1 == PreviewByteIndex(y, x, 1);
      assert offset + 2 == PreviewByteIndex(y, x, 2);
    }
  }

  /**
   * With a title in the canonical `.title` file and a thumbnail in the canonical `.thm` file, the activity shows
   * that title, trimmed, and that file's image.
   */
  lemma CanonicalFilesShown(fs: FileSystem, storage: Storage, p: Platform, slot: int, title: seq<byte>, thumbnail: seq<byte>)
    ensures var written := fs[CandidatePath(SnapshotPreviewDir(storage), SlotName(slot), "title") := title]
                            [CandidatePath(SnapshotPreviewDir(storage), SlotName(slot), "thm") := thumbnail];
      && StoredTitle(written, storage, p, slot) == TrimWhitespace(p.decodeUtf8(title))
      && SlotThumbnail(written, storage, slot) == DecodedThumbnail(thumbnail)
  {
    var titlePath := CandidatePath(SnapshotPreviewDir(storage), SlotName(slot), "title");
    var thmPath := CandidatePath(SnapshotPreviewDir(storage), SlotName(slot), "thm");
    assert |titlePath| != |thmPath|;
    var written := fs[titlePath := title][thmPath := thumbnail];
    CanonicalFileResolvesFirst(written, storage, slot, "title");
    CanonicalFileResolvesFirst(written, storage, slot, "thm");
  }

  /** The files the writer leaves for slot `slot` are the slot's canonical `.title` and `.thm` candidates. */
  lemma SidecarFilesAreCanonical(fs: FileSystem, storage: Storage, slot: int, internalStorage: CString,
                                 title: seq<byte>, pixels: seq<byte>)
    requires 1 <= slot <= TotalSnapshotSlots
    requires Latin1(internalStorage) == storage.filesDir
    ensures SidecarFiles(fs, PreviewDirBytes(internalStorage), SanitizedName(Some(SlotNameBytes(slot)), SafeNameSize), title, Some(pixels))
      == fs[CandidatePath(SnapshotPreviewDir(storage), SlotName(slot), "title") := title]
           [CandidatePath(SnapshotPreviewDir(storage), SlotName(slot), "thm") := ThumbnailFile(PreviewWidth, PreviewHeight, pixels)]
  {
    var name := SanitizedName(Some(SlotNameBytes(slot)), SafeNameSize);
    var dir := PreviewDirBytes(internalStorage);
    assert name == SlotNameBytes(slot) by {
      SafeNameUnchanged(SlotNameBytes(slot), SafeNameSize);
    }
    assert Latin1(SidecarPath(dir, name, TitleExtension)) == CandidatePath(SnapshotPreviewDir(storage), SlotName(slot), "title") by {
      SidecarPathIsCanonical(storage, internalStorage, slot, TitleExtension);
      Latin1OfAscii("title");
    }
    assert Latin1(SidecarPath(dir, name, ThumbnailExtension)) == CandidatePath(SnapshotPreviewDir(storage), SlotName(slot), "thm") by {
      SidecarPathIsCanonical(storage, internalStorage, slot, ThumbnailExtension);
      Latin1OfAscii("thm");
    }
  }

  /**
   * After the writer stores a slot's title and thumbnail (as its postcondition describes, for a capture that
   * succeeded), the activity shows that title, trimmed, and the thumbnail file's image.
   */
  lemma WrittenSidecarShown(fs: FileSystem, storage: Storage, p: Platform, slot: int, internalStorage: CString,
                            xbeTitle: Option<CString>, pixels: seq<byte>)
    requires 1 <= slot <= TotalSnapshotSlots
    requires Latin1(internalStorage) == storage.filesDir
    ensures var written := SidecarFiles(fs, PreviewDirBytes(internalStorage), SanitizedName(Some(SlotNameBytes(slot)), SafeNameSize),
                                        GetSnapshotTitle(xbeTitle), Some(pixels));
      && StoredTitle(written, storage, p, slot) == TrimWhitespace(p.decodeUtf8(GetSnapshotTitle(xbeTitle)))
      && SlotThumbnail(written, storage, slot) == DecodedThumbnail(ThumbnailFile(PreviewWidth, PreviewHeight, pixels))
  {
    SidecarFilesAreCanonical(fs, storage, slot, internalStorage, GetSnapshotTitle(xbeTitle), pixels);
    CanonicalFilesShown(fs, storage, p, slot, GetSnapshotTitle(xbeTitle), ThumbnailFile(PreviewWidth, PreviewHeight, pixels));
  }
}
