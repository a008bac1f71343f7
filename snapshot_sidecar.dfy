/**
 * The native half of the preview sidecars: when the emulator saves a snapshot it writes `<name>.title` (the
 * running game's title) and `<name>.thm` (a 320 x 240 RGBA thumbnail of the framebuffer, in the X1TH format)
 * into `<internal storage>/x1box/snapshots`, `<name>` being the snapshot name made safe for a file name.
 */
module SnapshotSidecar {
  import opened Wrappers
  import opened Sequences
  import opened CBytes
  import opened IndexArith
  import opened SnapshotFiles
  import opened ThumbnailFormat

  const PreviewWidth := 320
  const PreviewHeight := 240
  /** Bytes in a thumbnail payload: 320 x 240 pixels of four bytes. */
  const PreviewBytes := PreviewWidth * PreviewHeight * RgbaChannels
  /** `char safe_name[128]`. */
  const SafeNameSize := 128

  /** `snapshot`: the name used when there is none to sanitize. */
  const DefaultName: CString := AsciiBytes("snapshot")
  /** `Unknown Game`: the title used when the running executable has none. */
  const UnknownGameTitle: CString := [0x55, 0x6E, 0x6B, 0x6E, 0x6F, 0x77, 0x6E, 0x20, 0x47, 0x61, 0x6D, 0x65]

  // Snapshot names.

  /** Bytes kept as they are in a file name: ASCII letters and digits, `_` and `-`. */
  predicate IsSafeNameByte(c: byte) {
    IsAsciiAlnum(c) || c == '_' as byte || c == '-' as byte
  }

  predicate IsSafeName(s: seq<byte>) {
    forall i :: 0 <= i < |s| ==> IsSafeNameByte(s[i])
  }

  /** Each unsafe byte becomes `_`. */
  function SanitizeBytes(s: seq<byte>): (r: seq<byte>)
    ensures |r| == |s| && IsSafeName(r)
    ensures forall i :: 0 <= i < |s| ==> (IsSafeNameByte(s[i]) ==> r[i] == s[i]) && (!IsSafeNameByte(s[i]) ==> r[i] == '_' as byte)
  {
    seq(|s|, i requires 0 <= i < |s| => if IsSafeNameByte(s[i]) then s[i] else '_' as byte)
  }

  /** Sanitizing one more byte appends that byte's replacement. */
  lemma SanitizeBytesAppend(s: seq<byte>, c: byte)
    ensures SanitizeBytes(s + [c]) == SanitizeBytes(s) + [if IsSafeNameByte(c) then c else '_' as byte]
  {
  }

  /** What `g_strlcpy(dst, src, size)` leaves as the string in `dst`: as much of `src` as fits before the NUL. */
  function StrlcpyResult(src: CString, size: nat): (r: CString)
    requires size > 0
    ensures |r| == Min(|src|, size - 1) && r == src[..|r|]
  {
    src[..Min(|src|, size - 1)]
  }

  /**
   * The string `sanitize_snapshot_name` leaves in a buffer of `outLen` bytes: `snapshot` for a missing or empty
   * name, otherwise the name cut to `outLen - 1` bytes with each unsafe byte replaced by `_`.
   */
  function SanitizedName(input: Option<CString>, outLen: nat): (name: CString)
    requires outLen > 0
    ensures |name| < outLen && IsSafeName(name)
    ensures outLen > 1 ==> name != []
    ensures input.None? || input.value == [] || outLen == 1 ==> name == DefaultName[..Min(|DefaultName|, outLen - 1)]
    ensures input.Some? && input.value != [] && outLen > 1 ==>
      |name| == Min(|input.value|, outLen - 1) && name == SanitizeBytes(input.value[..|name|])
  {
    if input.None? || input.value == [] then StrlcpyResult(DefaultName, outLen)
    else
      var n := Min(|input.value|, outLen - 1);
      if n == 0 then StrlcpyResult(DefaultName, outLen)
      else
        var name := SanitizeBytes(input.value[..n]);
        assert forall i :: 0 <= i < |name| ==> name[i] != 0;
        name
  }

  /** A non-empty safe name that fits the buffer comes through unchanged. */
  lemma SafeNameUnchanged(name: CString, outLen: nat)
    requires name != [] && IsSafeName(name) && |name| < outLen
    ensures SanitizedName(Some(name), outLen) == name
  {
    assert name[..|name|] == name;
  }

  /** Sanitizing a sanitized name changes nothing. */
  lemma SanitizedNameIdempotent(input: Option<CString>, outLen: nat)
    requires outLen > 1
    ensures SanitizedName(Some(SanitizedName(input, outLen)), outLen) == SanitizedName(input, outLen)
  {
    SafeNameUnchanged(SanitizedName(input, outLen), outLen);
  }

  /** `g_strlcpy(dst, src, size)`: copies what fits and terminates it; bytes after the terminator are untouched. */
  method StrlCopy(dst: array<byte>, src: CString, size: nat)
    requires 0 < size <= dst.Length
    modifies dst
    ensures var r := StrlcpyResult(src, size);
      dst[..|r|] == r && dst[|r|] == 0 && dst[|r| + 1..] == old(dst[|r| + 1..])
  {
    var n := Min(|src|, size - 1);
    for i := 0 to n
      invariant dst[..i] == src[..i] && dst[i..] == old(dst[i..])
    {
      dst[i] := src[i];
    }
    assert dst[n + 1..] == dst[n..][1..];
    ghost var copied, rest := dst[..n], dst[n + 1..];
    dst[n] := 0;
    assert dst[..n] == copied && dst[n + 1..] == rest;
  }

  /** `sanitize_snapshot_name(in, out, out_len)`; `None` stands for a NULL `in`, a null `out` does nothing. */
  method SanitizeSnapshotName(input: Option<CString>, out: array?<byte>, outLen: nat)
    requires out != null ==> outLen <= out.Length
    modifies out
    ensures out != null && outLen == 0 ==> out[..] == old(out[..])
    ensures out != null && outLen > 0 ==>
      var name := SanitizedName(input, outLen);
      out[..|name|] == name && out[|name|] == 0 && out[|name| + 1..] == old(out[|name| + 1..])
  {
    if out == null || outLen == 0 {
      return;
    }
    if input.None? || input.value == [] {
      StrlCopy(out, DefaultName, outLen);
      return;
    }
    var s := input.value;
    var j := 0;
    while j < |s| && j + 1 < outLen
      invariant j <= |s| && j < outLen
      invariant out[..j] == SanitizeBytes(s[..j])
      invariant out[j..] == old(out[j..])
    {
      ghost var sanitized := out[..j];
      assert out[j + 1..] == out[j..][1..];
      ghost var rest := out[j + 1..];
      out[j] := if IsSafeNameByte(s[j]) then s[j] else '_' as byte;
      assert s[..j + 1] == s[..j] + [s[j]];
      SanitizeBytesAppend(s[..j], s[j]);
      assert out[..j + 1] == sanitized + [out[j]];
      assert out[j + 1..] == rest;
      j := j + 1;
    }
    if j == 0 {
      StrlCopy(out, DefaultName, outLen);
    } else {
      out[j] := 0;
    }
  }

  // Titles.

  /**
   * `get_snapshot_title`: the executable's certificate title (already converted from UTF-16, `None` when there
   * is no executable, no certificate or the conversion fails), with ASCII white space stripped; `Unknown Game`
   * when that leaves nothing.
   */
  function GetSnapshotTitle(xbeTitle: Option<CString>): (title: CString)
    ensures title != [] && StrStrip(title) == title
    ensures xbeTitle.Some? && StrStrip(xbeTitle.value) != [] ==> title == StrStrip(xbeTitle.value)
    ensures (xbeTitle.None? || StrStrip(xbeTitle.value) == []) ==> title == UnknownGameTitle
  {
    if xbeTitle.Some? && StrStrip(xbeTitle.value) != [] then
      var stripped := StrStrip(xbeTitle.value);
      TrimKeepsElements(xbeTitle.value, IsAsciiSpace);
      TrimOfTrimmed(stripped, IsAsciiSpace);
      stripped
    else
      TrimOfTrimmed(UnknownGameTitle, IsAsciiSpace);
      UnknownGameTitle
  }

  // Thumbnail capture.

  /** The GL viewport's size and its pixels as `glReadPixels` returns them: RGBA rows, bottom row first. */
  datatype Framebuffer = Framebuffer(width: int, height: int, pixels: seq<byte>)

  /** A read-back of a non-empty viewport holds exactly `width * height` RGBA pixels. */
  predicate WellFormed(fb: Framebuffer) {
    fb.width > 0 && fb.height > 0 ==> |fb.pixels| == fb.width * fb.height * RgbaChannels
  }

  /** A capture succeeds: there is a framebuffer (a GL context and a display texture) and its viewport is not empty. */
  predicate Captures(framebuffer: Option<Framebuffer>) {
    framebuffer.Some? && framebuffer.value.width > 0 && framebuffer.value.height > 0
  }

  /** Byte `k` of thumbnail pixel (x, y). */
  function PreviewByteIndex(y: nat, x: nat, k: nat): (i: nat)
    requires y < PreviewHeight && x < PreviewWidth && k < RgbaChannels
    ensures i < PreviewBytes
  {
    (y * PreviewWidth + x) * RgbaChannels + k
  }

  /** Byte `k` of the framebuffer pixel nearest-neighbour sampling picks for thumbnail pixel (x, y). */
  function FramebufferByteIndex(w: int, h: int, y: nat, x: nat, k: nat): (i: nat)
    requires w > 0 && h > 0 && y < PreviewHeight && x < PreviewWidth && k < RgbaChannels
    ensures i < w * h * RgbaChannels
  {
    ScaledIndexBelow(y, h, PreviewHeight);
    ScaledIndexBelow(x, w, PreviewWidth);
    var sy, sx := (y * h) / PreviewHeight, (x * w) / PreviewWidth;
    RowMajorBound(sy, sx, w, h);
    (sy * w + sx) * RgbaChannels + k
  }

  /** `pixels` is the 320 x 240 nearest-neighbour resampling of the framebuffer, row for row. */
  ghost predicate IsResampled(fb: Framebuffer, pixels: seq<byte>)
    requires fb.width > 0 && fb.height > 0 && WellFormed(fb)
  {
    && |pixels| == PreviewBytes
    && forall y, x, k :: 0 <= y < PreviewHeight && 0 <= x < PreviewWidth && 0 <= k < RgbaChannels ==>
         pixels[PreviewByteIndex(y, x, k)] == fb.pixels[FramebufferByteIndex(fb.width, fb.height, y, x, k)]
  }

  /** The thumbnail pixel (as a row-major pixel number) and channel of thumbnail byte `i`. */
  lemma PreviewByteSplit(i: int) returns (y: nat, x: nat, k: nat)
    requires 0 <= i < PreviewBytes
    ensures y < PreviewHeight && x < PreviewWidth && k < RgbaChannels && i == PreviewByteIndex(y, x, k)
  {
    RowOfIndex(i, RgbaChannels, PreviewWidth * PreviewHeight);
    var pixel := i / RgbaChannels;
    RowOfIndex(pixel, PreviewWidth, PreviewHeight);
    y, x, k := pixel / PreviewWidth, pixel % PreviewWidth, i % RgbaChannels;
  }

  /** The byte of the framebuffer that nearest-neighbour sampling copies into thumbnail byte `i`. */
  function SourceByte(w: int, h: int, i: int): (j: nat)
    requires w > 0 && h > 0 && 0 <= i < PreviewBytes
    ensures j < w * h * RgbaChannels
    ensures forall y: nat, x: nat, k: nat :: y < PreviewHeight && x < PreviewWidth && k < RgbaChannels && i == PreviewByteIndex(y, x, k) ==>
      j == FramebufferByteIndex(w, h, y, x, k)
  {
    RowOfIndex(i, RgbaChannels, PreviewWidth * PreviewHeight);
    var pixel, k := i / RgbaChannels, i % RgbaChannels;
    RowOfIndex(pixel, PreviewWidth, PreviewHeight);
    var y, x := pixel / PreviewWidth, pixel % PreviewWidth;
    forall y': nat, x': nat, k': nat | y' < PreviewHeight && x' < PreviewWidth && k' < RgbaChannels && i == PreviewByteIndex(y', x', k')
      ensures y' == y && x' == x && k' == k
    {
      RowMajorDivMod(y' * PreviewWidth + x', k', RgbaChannels);
      RowMajorDivMod(y', x', PreviewWidth);
    }
    FramebufferByteIndex(w, h, y, x, k)
  }

  /** The 320 x 240 nearest-neighbour resampling of a non-empty framebuffer, as a reference definition. */
  function ResampledPixels(fb: Framebuffer): (pixels: seq<byte>)
    requires fb.width > 0 && fb.height > 0 && WellFormed(fb)
    ensures |pixels| == PreviewBytes
  {
    seq(PreviewBytes, i requires 0 <= i < PreviewBytes => fb.pixels[SourceByte(fb.width, fb.height, i)])
  }

  /** The reference resampling is a resampling, and the only one: every thumbnail byte is fixed by the framebuffer. */
  lemma ResampledPixelsUnique(fb: Framebuffer, pixels: seq<byte>)
    requires fb.width > 0 && fb.height > 0 && WellFormed(fb)
    ensures IsResampled(fb, pixels) <==> pixels == ResampledPixels(fb)
  {
    var reference := ResampledPixels(fb);
    if IsResampled(fb, pixels) {
      forall i | 0 <= i < PreviewBytes
        ensures pixels[i] == reference[i]
      {
        var y, x, k := PreviewByteSplit(i);
      }
    }
    if pixels == reference {
      forall y, x, k | 0 <= y < PreviewHeight && 0 <= x < PreviewWidth && 0 <= k < RgbaChannels
        ensures pixels[PreviewByteIndex(y, x, k)] == fb.pixels[FramebufferByteIndex(fb.width, fb.height, y, x, k)]
      {
      }
    }
  }

  /** What a capture yields: `None` without a framebuffer or for an empty viewport, else the resampled pixels. */
  function CapturedThumbnail(framebuffer: Option<Framebuffer>): Option<seq<byte>>
    requires framebuffer.Some? ==> WellFormed(framebuffer.value)
  {
    if Captures(framebuffer) then Some(ResampledPixels(framebuffer.value)) else None
  }

  /** One pass of the outer resampling loop: thumbnail row `y`, four bytes copied per pixel. */
  method ResampleRow(fb: Framebuffer, y: nat, dst: array<byte>)
    requires fb.width > 0 && fb.height > 0 && WellFormed(fb)
    requires y < PreviewHeight && dst.Length == PreviewBytes
    modifies dst
    ensures forall x, k :: 0 <= x < PreviewWidth && 0 <= k < RgbaChannels ==>
      dst[PreviewByteIndex(y, x, k)] == fb.pixels[FramebufferByteIndex(fb.width, fb.height, y, x, k)]
    ensures forall i :: 0 <= i < dst.Length && !(y * PreviewWidth * RgbaChannels <= i < (y + 1) * PreviewWidth * RgbaChannels) ==>
      dst[i] == old(dst[i])
  {
    var srcW, srcH := fb.width, fb.height;
    var srcY := (y * srcH) / PreviewHeight;
    for x := 0 to PreviewWidth
      invariant forall x', k :: 0 <= x' < x && 0 <= k < RgbaChannels ==>
        dst[PreviewByteIndex(y, x', k)] == fb.pixels[FramebufferByteIndex(srcW, srcH, y, x', k)]
      invariant forall i :: 0 <= i < dst.Length && !(y * PreviewWidth * RgbaChannels <= i < (y * PreviewWidth + x) * RgbaChannels) ==>
        dst[i] == old(dst[i])
    {
      var srcX := (x * srcW) / PreviewWidth;
      var srcOff := (srcY * srcW + srcX) * RgbaChannels;
      var dstOff := (y * PreviewWidth + x) * RgbaChannels;
      assert srcOff + 3 == FramebufferByteIndex(srcW, srcH, y, x, 3);
      forall k | 0 <= k < RgbaChannels {
        dst[dstOff + k] := fb.pixels[srcOff + k];
      }
      assert forall k :: 0 <= k < RgbaChannels ==>
        (dstOff + k == PreviewByteIndex(y, x, k) && srcOff + k == FramebufferByteIndex(srcW, srcH, y, x, k));
    }
  }

  /**
   * `capture_snapshot_thumbnail`: `None` without a framebuffer or with an empty viewport; otherwise the
   * 320 x 240 RGBA thumbnail, each pixel copied from the framebuffer pixel at the scaled position.
   */
  method CaptureSnapshotThumbnail(framebuffer: Option<Framebuffer>) returns (pixels: Option<seq<byte>>)
    requires framebuffer.Some? ==> WellFormed(framebuffer.value)
    ensures pixels == CapturedThumbnail(framebuffer)
  {
    if framebuffer.None? {
      return None;
    }
    var fb := framebuffer.value;
    if fb.width <= 0 || fb.height <= 0 {
      return None;
    }
    var dst := new byte[PreviewBytes];
    for y := 0 to PreviewHeight
      invariant forall y', x, k :: 0 <= y' < y && 0 <= x < PreviewWidth && 0 <= k < RgbaChannels ==>
        dst[PreviewByteIndex(y', x, k)] == fb.pixels[FramebufferByteIndex(fb.width, fb.height, y', x, k)]
    {
      ResampleRow(fb, y, dst);
    }
    ResampledPixelsUnique(fb, dst[..]);
    pixels := Some(dst[..]);
  }

  // The sidecar files.

  /** `<base>/x1box/snapshots`, as `get_snapshot_preview_dir` builds it from the internal storage path. */
  function PreviewDirBytes(base: CString): (dir: CString)
  {
    base + AsciiBytes("/x1box/snapshots")
  }

  /** The extensions of the title and thumbnail files. */
  const TitleExtension: CString := AsciiBytes("title")
  const ThumbnailExtension: CString := AsciiBytes("thm")

  /** `<dir>/<name>.<extension>`. */
  function SidecarPath(dir: CString, name: CString, extension: CString): (path: CString)
  {
    dir + AsciiBytes("/") + name + AsciiBytes(".") + extension
  }

  /** `sanitize_snapshot_name` into the writer's `safe_name` buffer, read back as a C string. */
  method SafeSnapshotName(vmName: Option<CString>) returns (name: CString)
    ensures name == SanitizedName(vmName, SafeNameSize)
  {
    var safeName := new byte[SafeNameSize];
    SanitizeSnapshotName(vmName, safeName, SafeNameSize);
    var sanitized := SanitizedName(vmName, SafeNameSize);
    assert safeName[..] == sanitized + [0] + safeName[|sanitized| + 1..];
    CStrOfTerminated(sanitized, safeName[|sanitized| + 1..]);
    name := CStr(safeName[..]);
  }

  /** The writer produces files: the snapshot has a name and the internal storage path is known. */
  predicate WritesSidecar(vmName: Option<CString>, internalStorage: Option<CString>) {
    vmName.Some? && vmName.value != [] && internalStorage.Some? && internalStorage.value != []
  }

  /**
   * The files after the writer ran with directory `dir` and sanitized name `name`: the title file holds `title`
   * and, when a thumbnail payload was captured, the thumbnail file holds the header and that payload.
   * Files are keyed by their path's bytes.
   */
  function SidecarFiles(fs: FileSystem, dir: CString, name: CString, title: seq<byte>, thumbnail: Option<seq<byte>>): FileSystem
  {
    var titled := fs[Latin1(SidecarPath(dir, name, TitleExtension)) := title];
    if thumbnail.None? then titled
    else titled[Latin1(SidecarPath(dir, name, ThumbnailExtension)) := PreviewHeader(PreviewWidth, PreviewHeight) + thumbnail.value]
  }

  /** The writes once the name and directory are known: the title file, then, when the capture succeeds, the thumbnail file. */
  method WriteSidecarFiles(fs: FileSystem, dir: CString, name: CString, xbeTitle: Option<CString>,
                           framebuffer: Option<Framebuffer>)
    returns (fs': FileSystem)
    requires framebuffer.Some? ==> WellFormed(framebuffer.value)
    ensures fs' == SidecarFiles(fs, dir, name, GetSnapshotTitle(xbeTitle), CapturedThumbnail(framebuffer))
  {
    var thumbPath := SidecarPath(dir, name, ThumbnailExtension);
    var titlePath := SidecarPath(dir, name, TitleExtension);
    var title := GetSnapshotTitle(xbeTitle);
    fs' := fs[Latin1(titlePath) := title];
    var pixels := CaptureSnapshotThumbnail(framebuffer);
    if pixels.Some? {
      fs' := fs'[Latin1(thumbPath) := PreviewHeader(PreviewWidth, PreviewHeight) + pixels.value];
    }
  }

  /**
   * `write_snapshot_preview_sidecar`: with a snapshot name and a storage path, writes the title file and, when
   * the capture succeeds, the thumbnail file; otherwise writes nothing.
   */
  method WriteSnapshotPreviewSidecar(fs: FileSystem, vmName: Option<CString>, internalStorage: Option<CString>,
                                     xbeTitle: Option<CString>, framebuffer: Option<Framebuffer>)
    returns (fs': FileSystem)
    requires framebuffer.Some? ==> WellFormed(framebuffer.value)
    ensures !WritesSidecar(vmName, internalStorage) ==> fs' == fs
    ensures WritesSidecar(vmName, internalStorage) ==>
      fs' == SidecarFiles(fs, PreviewDirBytes(internalStorage.value), SanitizedName(vmName, SafeNameSize),
                          GetSnapshotTitle(xbeTitle), CapturedThumbnail(framebuffer))
  {
    fs' := fs;
    if vmName.Some? && vmName.value != [] {
      var name := SafeSnapshotName(vmName);
      if internalStorage.Some? && internalStorage.value != [] {
        fs' := WriteSidecarFiles(fs, PreviewDirBytes(internalStorage.value), name, xbeTitle, framebuffer);
      }
    }
  }
}
