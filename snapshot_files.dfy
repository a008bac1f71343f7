/**
 * Where the activity looks for a slot's preview files: the snapshot directories, the four historical
 * slot-name aliases, and the directory-major, alias-minor search for the first file that exists.
 */
module SnapshotFiles {
  import opened Wrappers
  import opened KotlinText
  import opened CBytes

  type Path = string

  /** The files the subsystem can see, by absolute path; a path names a regular file exactly when it is a key. */
  type FileSystem = map<Path, seq<byte>>

  const TotalSnapshotSlots := 10

  /** The activity's absolute `filesDir` and, when the device has one, its absolute `getExternalFilesDir(null)`. */
  datatype Storage = Storage(filesDir: Path, externalFilesDir: Option<Path>)

  /** `File(dir, name)`. */
  function Child(dir: Path, name: string): Path {
    dir + "/" + name
  }

  /**
   * The canonical slot name, also the name under which the emulator stores the slot's state: one path component
   * with no dot, starting `android_slot_`.
   */
  function SlotName(slot: int): (name: string)
    ensures |name| > 13 && name[..13] == "android_slot_"
    ensures '/' !in name && ':' !in name && '.' !in name
  {
    var digits := IntToString(slot);
    assert forall i :: 0 <= i < |digits| ==> digits[i] != '/' && digits[i] != ':' && digits[i] != '.';
    "android_slot_" + digits
  }

  /** Different slots have different names, so no two slots share a snapshot or a preview file. */
  lemma SlotNameInjective(a: int, b: int)
    requires SlotName(a) == SlotName(b)
    ensures a == b
  {
    assert SlotName(a)[13..] == IntToString(a);
    assert SlotName(b)[13..] == IntToString(b);
    IntToStringInjective(a, b);
  }

  /** The snapshot directory under a base directory. */
  function SnapshotDirUnder(base: Path): Path {
    Child(base, "x1box/snapshots")
  }

  /** The primary (app-private) snapshot directory: `x1box/snapshots` inside `filesDir`. */
  function SnapshotPreviewDir(storage: Storage): (dir: Path)
    ensures |dir| > |storage.filesDir| + 1 && dir[..|storage.filesDir| + 1] == storage.filesDir + "/"
    ensures dir[|storage.filesDir| + 1..] == "x1box/snapshots"
  {
    SnapshotDirUnder(storage.filesDir)
  }

  /** The directories searched, in order: the primary one, then the external one, duplicates removed. */
  function SnapshotPreviewDirs(storage: Storage): (dirs: seq<Path>)
    ensures 1 <= |dirs| && dirs[0] == SnapshotPreviewDir(storage)
    ensures forall i, j :: 0 <= i < j < |dirs| ==> dirs[i] != dirs[j]
    ensures storage.externalFilesDir.None? ==> dirs == [SnapshotPreviewDir(storage)]
    ensures storage.externalFilesDir.Some? ==>
      (set d | d in dirs) == {SnapshotPreviewDir(storage), SnapshotDirUnder(storage.externalFilesDir.value)}
  {
    var primary := SnapshotPreviewDir(storage);
    match storage.externalFilesDir
    case None => [primary]
    case Some(base) =>
      var external := SnapshotDirUnder(base);
      if external == primary then [primary] else [primary, external]
  }

  /** The names a slot's files may carry, most preferred first. */
  function SlotNameAliases(slot: int): (aliases: seq<string>)
    ensures |aliases| == 4 && aliases[0] == SlotName(slot)
  {
    var n := IntToString(slot);
    [SlotName(slot), "slot_" + n, "slot" + n, "snapshot_" + n]
  }

  /** The four aliases of a slot are pairwise different, so keeping them in an ordered set drops none of them. */
  lemma SlotNameAliasesDistinct(slot: int)
    ensures forall i, j :: 0 <= i < j < 4 ==> SlotNameAliases(slot)[i] != SlotNameAliases(slot)[j]
  {
    var a := SlotNameAliases(slot);
    var n := IntToString(slot);
    assert a[0][0] == 'a' && a[1][0] == 's' && a[2][0] == 's' && a[3][0] == 's';
    assert a[1][1] == 'l' && a[2][1] == 'l' && a[3][1] == 'n';
    assert a[1][4] == '_' && a[2][4] == n[0];
  }

  /** `File(dir, "$name.$extension")`. */
  function CandidatePath(dir: Path, name: string, extension: string): Path {
    Child(dir, name + "." + extension)
  }

  /** The first name of `names` whose file exists in `dir`. */
  function FirstAliasMatch(fs: FileSystem, dir: Path, names: seq<string>, extension: string): Option<Path>
  {
    if names == [] then None
    else if CandidatePath(dir, names[0], extension) in fs then Some(CandidatePath(dir, names[0], extension))
    else FirstAliasMatch(fs, dir, names[1..], extension)
  }

  /** The first existing file over `dirs` x `names`, directories outermost. */
  function Resolve(fs: FileSystem, dirs: seq<Path>, names: seq<string>, extension: string): Option<Path>
  {
    if dirs == [] then None
    else match FirstAliasMatch(fs, dirs[0], names, extension)
      case Some(file) => Some(file)
      case None => Resolve(fs, dirs[1..], names, extension)
  }

  /** The file `resolveSnapshotPreviewFile(slot, extension)` returns. */
  function ResolvedPreviewFile(fs: FileSystem, storage: Storage, slot: int, extension: string): Option<Path> {
    Resolve(fs, SnapshotPreviewDirs(storage), SlotNameAliases(slot), extension)
  }

  /** No candidate exists at all. */
  ghost predicate NoMatch(fs: FileSystem, dirs: seq<Path>, names: seq<string>, extension: string) {
    forall i, j :: 0 <= i < |dirs| && 0 <= j < |names| ==> CandidatePath(dirs[i], names[j], extension) !in fs
  }

  /** No candidate before position (i, j), in directory-major order, exists. */
  ghost predicate NoEarlierMatch(fs: FileSystem, dirs: seq<Path>, names: seq<string>, extension: string, i: int, j: int) {
    forall i', j' :: 0 <= i' < |dirs| && 0 <= j' < |names| && (i' < i || (i' == i && j' < j)) ==>
      CandidatePath(dirs[i'], names[j'], extension) !in fs
  }

  /** `file` exists and is the candidate at the earliest position whose file exists. */
  ghost predicate IsFirstMatch(fs: FileSystem, dirs: seq<Path>, names: seq<string>, extension: string, file: Path) {
    exists i, j :: 0 <= i < |dirs| && 0 <= j < |names| && file == CandidatePath(dirs[i], names[j], extension)
      && file in fs && NoEarlierMatch(fs, dirs, names, extension, i, j)
  }

  lemma {:induction false} FirstAliasMatchNone(fs: FileSystem, dir: Path, names: seq<string>, extension: string)
    ensures FirstAliasMatch(fs, dir, names, extension).None? <==>
      forall j :: 0 <= j < |names| ==> CandidatePath(dir, names[j], extension) !in fs
  {
    if names != [] && CandidatePath(dir, names[0], extension) !in fs {
      FirstAliasMatchNone(fs, dir, names[1..], extension);
      assert forall j :: 1 <= j < |names| ==> names[j] == names[1..][j - 1];
    }
  }

  lemma {:induction false} FirstAliasMatchIndex(fs: FileSystem, dir: Path, names: seq<string>, extension: string)
    returns (j: nat)
    requires FirstAliasMatch(fs, dir, names, extension).Some?
    ensures j < |names| && FirstAliasMatch(fs, dir, names, extension).value == CandidatePath(dir, names[j], extension)
    ensures CandidatePath(dir, names[j], extension) in fs
    ensures forall j' :: 0 <= j' < j ==> CandidatePath(dir, names[j'], extension) !in fs
  {
    if CandidatePath(dir, names[0], extension) in fs {
      j := 0;
    } else {
      var k := FirstAliasMatchIndex(fs, dir, names[1..], extension);
      j := k + 1;
      assert forall j' :: 1 <= j' < j ==> names[j'] == names[1..][j' - 1];
    }
  }

  lemma {:induction false} ResolveNone(fs: FileSystem, dirs: seq<Path>, names: seq<string>, extension: string)
    ensures Resolve(fs, dirs, names, extension).None? <==> NoMatch(fs, dirs, names, extension)
  {
    if dirs != [] {
      FirstAliasMatchNone(fs, dirs[0], names, extension);
      ResolveNone(fs, dirs[1..], names, extension);
      assert forall i :: 1 <= i < |dirs| ==> dirs[i] == dirs[1..][i - 1];
      if FirstAliasMatch(fs, dirs[0], names, extension).None? && NoMatch(fs, dirs[1..], names, extension) {
        forall i, j | 0 <= i < |dirs| && 0 <= j < |names|
          ensures CandidatePath(dirs[i], names[j], extension) !in fs
        {
          if i > 0 {
            assert dirs[i] == dirs[1..][i - 1];
          }
        }
      }
    }
  }

  lemma {:induction false} ResolveIndex(fs: FileSystem, dirs: seq<Path>, names: seq<string>, extension: string)
    returns (i: nat, j: nat)
    requires Resolve(fs, dirs, names, extension).Some?
    ensures i < |dirs| && j < |names|
    ensures Resolve(fs, dirs, names, extension).value == CandidatePath(dirs[i], names[j], extension)
    ensures CandidatePath(dirs[i], names[j], extension) in fs
    ensures NoEarlierMatch(fs, dirs, names, extension, i, j)
  {
    match FirstAliasMatch(fs, dirs[0], names, extension)
    case Some(_) =>
      i := 0;
      j := FirstAliasMatchIndex(fs, dirs[0], names, extension);
    case None =>
      FirstAliasMatchNone(fs, dirs[0], names, extension);
      var k, l := ResolveIndex(fs, dirs[1..], names, extension);
      i, j := k + 1, l;
      forall i', j' | 0 <= i' < |dirs| && 0 <= j' < |names| && (i' < i || (i' == i && j' < j))
        ensures CandidatePath(dirs[i'], names[j'], extension) !in fs
      {
        if i' > 0 {
          assert dirs[i'] == dirs[1..][i' - 1];
        }
      }
  }

  /**
   * Resolution returns exactly the first existing candidate in directory-major, alias-minor order,
   * and nothing when no candidate exists.
   */
  lemma ResolveIsFirstMatch(fs: FileSystem, dirs: seq<Path>, names: seq<string>, extension: string, file: Path)
    ensures Resolve(fs, dirs, names, extension) == Some(file) <==> IsFirstMatch(fs, dirs, names, extension, file)
    ensures Resolve(fs, dirs, names, extension).None? <==> NoMatch(fs, dirs, names, extension)
  {
    ResolveNone(fs, dirs, names, extension);
    if Resolve(fs, dirs, names, extension).Some? {
      var i, j := ResolveIndex(fs, dirs, names, extension);
      if IsFirstMatch(fs, dirs, names, extension, file) {
        var i2, j2 :| 0 <= i2 < |dirs| && 0 <= j2 < |names| && file == CandidatePath(dirs[i2], names[j2], extension)
          && file in fs && NoEarlierMatch(fs, dirs, names, extension, i2, j2);
        assert i2 == i && j2 == j;
      }
    }
  }

  /** `resolveSnapshotPreviewFile`: the nested search with an early return. */
  method ResolveSnapshotPreviewFile(fs: FileSystem, storage: Storage, slot: int, extension: string)
    returns (file: Option<Path>)
    ensures file == ResolvedPreviewFile(fs, storage, slot, extension)
    ensures file.Some? ==> file.value in fs
  {
    var dirs := SnapshotPreviewDirs(storage);
    var aliases := SlotNameAliases(slot);
    var i := 0;
    while i < |dirs|
      invariant 0 <= i <= |dirs|
      invariant Resolve(fs, dirs, aliases, extension) == Resolve(fs, dirs[i..], aliases, extension)
    {
      var j := 0;
      while j < |aliases|
        invariant 0 <= j <= |aliases|
        invariant FirstAliasMatch(fs, dirs[i], aliases, extension) == FirstAliasMatch(fs, dirs[i], aliases[j..], extension)
      {
        var candidate := CandidatePath(dirs[i], aliases[j], extension);
        if candidate in fs {
          assert dirs[i..][0] == dirs[i];
          return Some(candidate);
        }
        assert aliases[j..][1..] == aliases[j + 1..];
        j := j + 1;
      }
      assert dirs[i..][1..] == dirs[i + 1..];
      i := i + 1;
    }
    return None;
  }

  /** `snapshotPreviewTitleFile(slot)`: the canonical title file, which is also the first place resolution looks. */
  function SnapshotPreviewTitleFile(storage: Storage, slot: int): (file: Path)
    ensures file == CandidatePath(SnapshotPreviewDirs(storage)[0], SlotNameAliases(slot)[0], "title")
  {
    Child(SnapshotPreviewDir(storage), SlotName(slot) + ".title")
  }

  /** A file under the canonical name in the primary directory shadows every other candidate. */
  lemma CanonicalFileResolvesFirst(fs: FileSystem, storage: Storage, slot: int, extension: string)
    requires CandidatePath(SnapshotPreviewDir(storage), SlotName(slot), extension) in fs
    ensures ResolvedPreviewFile(fs, storage, slot, extension) == Some(CandidatePath(SnapshotPreviewDir(storage), SlotName(slot), extension))
  {
  }
}
