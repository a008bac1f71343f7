/**
 * The xemu extra-data record the native layer appends to a snapshot's migration stream (magic, version, size,
 * then a length-prefixed game title), and the loader's step that skips over it.
 */
module SnapshotExtraData {
  import opened Wrappers
  import opened Sequences
  import opened CBytes
  import opened SnapshotSidecar

  /** `XEMU_SNAPSHOT_DATA_MAGIC` (`xemu` in ASCII) and `XEMU_SNAPSHOT_DATA_VERSION`. */
  const SnapshotDataMagic: uint32 := 0x7865_6D75
  const SnapshotDataVersion: uint32 := 1
  /** The title's length is stored in one byte. */
  const MaxTitleBytes := 255

  /** One `qemu_get_byte`: the byte, the new position, the new error flag. Past the end nothing moves and the error is set. */
  function GetByteStep(data: seq<byte>, pos: int, error: bool): (byte, int, bool) {
    if 0 <= pos < |data| then (data[pos], pos + 1, error) else (0, pos, true)
  }

  /** One `qemu_get_be32`: four byte reads, most significant first. */
  function GetBe32Step(data: seq<byte>, pos: int, error: bool): (uint32, int, bool) {
    var (b0, p1, e1) := GetByteStep(data, pos, error);
    var (b1, p2, e2) := GetByteStep(data, p1, e1);
    var (b2, p3, e3) := GetByteStep(data, p2, e2);
    var (b3, p4, e4) := GetByteStep(data, p3, e3);
    (b0 as int * 0x100_0000 + b1 as int * 0x1_0000 + b2 as int * 0x100 + b3 as int, p4, e4)
  }

  /** `qemu_file_skip`: moves only when the target is not past the end. */
  function SkipPos(data: seq<byte>, pos: int, n: int): int {
    if pos + n <= |data| then pos + n else pos
  }

  /** `qemu_get_buffer`: reads what is there, up to `size` bytes; a short read sets the error. */
  function GetBufferStep(data: seq<byte>, pos: int, error: bool, size: nat): (int, bool) {
    var available := if 0 <= pos <= |data| then |data| - pos else 0;
    if size <= available then (pos + size, error) else (pos + available, true)
  }

  /** Where `xemu_snapshots_offset_extra_data` leaves the stream's position and error flag. */
  function OffsetExtraDataStep(data: seq<byte>, pos: int, error: bool): (int, bool) {
    var (magic, p1, e1) := GetBe32Step(data, pos, error);
    if magic != SnapshotDataMagic then (SkipPos(data, p1, -4), e1)
    else
      var (_, p2, e2) := GetBe32Step(data, p1, e1);
      var (size, p3, e3) := GetBe32Step(data, p2, e2);
      GetBufferStep(data, p3, e3, size)
  }

  /** A `QEMUFile` as a byte stream: what has been written, the read position and the sticky error flag. */
  class QemuFile {
    var data: seq<byte>
    var pos: int
    var error: bool

    /** A stream positioned at `start` over `contents`. */
    constructor (contents: seq<byte>, start: int)
      ensures data == contents && pos == start && !error
    {
      data := contents;
      pos := start;
      error := false;
    }

    method PutByte(b: byte)
      modifies this
      ensures data == old(data) + [b] && pos == old(pos) && error == old(error)
    {
      data := data + [b];
    }

    /** `qemu_put_be32`. */
    method PutBe32(v: uint32)
      modifies this
      ensures data == old(data) + Be32(v) && pos == old(pos) && error == old(error)
    {
      var bytes := Be32(v);
      for i := 0 to 4
        invariant data == old(data) + bytes[..i] && pos == old(pos) && error == old(error)
      {
        PutByte(bytes[i]);
        assert bytes[..i + 1] == bytes[..i] + [bytes[i]];
      }
    }

    /** `qemu_put_buffer`. */
    method PutBuffer(buf: seq<byte>)
      modifies this
      ensures data == old(data) + buf && pos == old(pos) && error == old(error)
    {
      data := data + buf;
    }

    method GetByte() returns (b: byte)
      modifies this
      ensures (b, pos, error) == GetByteStep(old(data), old(pos), old(error)) && data == old(data)
    {
      if 0 <= pos < |data| {
        b := data[pos];
        pos := pos + 1;
      } else {
        b := 0;
        error := true;
      }
    }

    /** `qemu_get_be32`. */
    method GetBe32() returns (v: uint32)
      modifies this
      ensures (v, pos, error) == GetBe32Step(old(data), old(pos), old(error)) && data == old(data)
    {
      var b0 := GetByte();
      var b1 := GetByte();
      var b2 := GetByte();
      var b3 := GetByte();
      v := b0 as int * 0x100_0000 + b1 as int * 0x1_0000 + b2 as int * 0x100 + b3 as int;
    }

    /** `qemu_file_skip`. */
    method Skip(n: int)
      modifies this
      ensures pos == SkipPos(old(data), old(pos), n) && data == old(data) && error == old(error)
    {
      if pos + n <= |data| {
        pos := pos + n;
      }
    }

    /** `qemu_get_buffer` into a scratch buffer that is thrown away; returns how many bytes were read. */
    method GetBuffer(size: nat) returns (read: nat)
      modifies this
      ensures (pos, error) == GetBufferStep(old(data), old(pos), old(error), size) && data == old(data)
      ensures read <= size
    {
      var available := if 0 <= pos <= |data| then |data| - pos else 0;
      if size <= available {
        read := size;
      } else {
        read := available;
        error := true;
      }
      pos := pos + read;
    }
  }

  /** The record's first 16 bytes: magic, version, the size of what follows the size field, and a zero word. */
  function RecordHeader(titleSize: nat): (header: seq<byte>)
    requires titleSize <= MaxTitleBytes
    ensures |header| == 16
  {
    Be32(SnapshotDataMagic) + Be32(SnapshotDataVersion) + Be32(4 + 1 + titleSize + 4) + Be32(0)
  }

  /** The record `xemu_snapshots_save_extra_data` writes for a title (at most 255 of its bytes are kept). */
  function ExtraDataRecord(title: CString): (record: seq<byte>)
    ensures |record| >= 12 && ReadBe32(record, 0) == SnapshotDataMagic && ReadBe32(record, 4) == SnapshotDataVersion
    ensures |record| == 12 + ReadBe32(record, 8)
  {
    var len := Min(|title|, MaxTitleBytes);
    var tail := [len] + title[..len] + Be32(0);
    RecordHeaderFields(len, tail);
    RecordHeader(len) + tail
  }

  /** The first three words of a record read back as the magic, the version and the size field. */
  lemma RecordHeaderFields(titleSize: nat, tail: seq<byte>)
    requires titleSize <= MaxTitleBytes
    ensures var record := RecordHeader(titleSize) + tail;
      && ReadBe32(record, 0) == SnapshotDataMagic && ReadBe32(record, 4) == SnapshotDataVersion
      && ReadBe32(record, 8) == 4 + 1 + titleSize + 4
  {
    var record := RecordHeader(titleSize) + tail;
    var magic, version, size, zero := Be32(SnapshotDataMagic), Be32(SnapshotDataVersion), Be32(4 + 1 + titleSize + 4), Be32(0);
    assert ReadBe32(record, 0) == SnapshotDataMagic by {
      assert record == [] + magic + (version + size + zero + tail);
      ReadBe32OfBe32(SnapshotDataMagic, [], version + size + zero + tail);
    }
    assert ReadBe32(record, 4) == SnapshotDataVersion by {
      assert record == magic + version + (size + zero + tail);
      ReadBe32OfBe32(SnapshotDataVersion, magic, size + zero + tail);
    }
    assert ReadBe32(record, 8) == 4 + 1 + titleSize + 4 by {
      assert record == magic + version + size + (zero + tail);
      ReadBe32OfBe32(4 + 1 + titleSize + 4, magic + version, zero + tail);
    }
  }

  /** The title a record carries: the length byte after the 16-byte prefix, then that many bytes. */
  function RecordTitle(record: seq<byte>): seq<byte>
    requires |record| >= 17 && |record| >= 17 + record[16] as int
  {
    record[17..17 + record[16] as int]
  }

  /** The stored title is the game's title cut to 255 bytes. */
  lemma RecordTitleRoundTrip(title: CString)
    ensures var record := ExtraDataRecord(title);
      |record| >= 17 && |record| >= 17 + record[16] as int && RecordTitle(record) == title[..Min(|title|, MaxTitleBytes)]
  {
    var len := Min(|title|, MaxTitleBytes);
    var record := ExtraDataRecord(title);
    var prefix := RecordHeader(len);
    assert record == prefix + ([len] + title[..len] + Be32(0));
    assert record[16] == len;
    assert record[17..17 + len] == title[..len];
  }

  /** `xemu_snapshots_save_extra_data`: appends the record for the running game's title. */
  method SaveExtraData(f: QemuFile, xbeTitle: Option<CString>)
    modifies f
    ensures f.data == old(f.data) + ExtraDataRecord(GetSnapshotTitle(xbeTitle))
    ensures f.pos == old(f.pos) && f.error == old(f.error)
  {
    var title := GetSnapshotTitle(xbeTitle);
    PutTitleRecord(f, title);
  }

  /** The writes of `xemu_snapshots_save_extra_data` once the title is known. */
  method PutTitleRecord(f: QemuFile, title: CString)
    modifies f
    ensures f.data == old(f.data) + ExtraDataRecord(title)
    ensures f.pos == old(f.pos) && f.error == old(f.error)
  {
    var titleSize := |title|;
    if titleSize > MaxTitleBytes {
      titleSize := MaxTitleBytes;
    }
    ghost var record := RecordHeader(titleSize) + ([titleSize] + title[..titleSize] + Be32(0));
    assert ExtraDataRecord(title) == record by {
      assert titleSize == Min(|title|, MaxTitleBytes);
    }
    ghost var start := f.data;
    PutRecordHeader(f, titleSize);
    f.PutByte(titleSize);
    ghost var beforeTitle := f.data;
    if titleSize > 0 {
      f.PutBuffer(title[..titleSize]);
    }
    assert f.data == beforeTitle + title[..titleSize];
    f.PutBe32(0);
    assert f.data == start + record;
  }

  /** The four `qemu_put_be32` calls that open the record. */
  method PutRecordHeader(f: QemuFile, titleSize: nat)
    requires titleSize <= MaxTitleBytes
    modifies f
    ensures f.data == old(f.data) + RecordHeader(titleSize)
    ensures f.pos == old(f.pos) && f.error == old(f.error)
  {
    f.PutBe32(SnapshotDataMagic);
    f.PutBe32(SnapshotDataVersion);
    f.PutBe32(4 + 1 + titleSize + 4);
    f.PutBe32(0);
    assert f.data == old(f.data) + Be32(SnapshotDataMagic) + Be32(SnapshotDataVersion) + Be32(4 + 1 + titleSize + 4) + Be32(0);
  }

  /** `xemu_snapshots_offset_extra_data`: skips one record if the stream is at one, else leaves the position; always true. */
  method OffsetExtraData(f: QemuFile) returns (ok: bool)
    modifies f
    ensures ok
    ensures (f.pos, f.error) == OffsetExtraDataStep(old(f.data), old(f.pos), old(f.error)) && f.data == old(f.data)
  {
    var v := f.GetBe32();
    if v != SnapshotDataMagic {
      f.Skip(-4);
      return true;
    }
    var _ := f.GetBe32();
    var size := f.GetBe32();
    var _ := f.GetBuffer(size);
    return true;
  }

  /** Reading a big-endian word where four bytes are available reads exactly those bytes. */
  lemma GetBe32InBounds(data: seq<byte>, pos: int, error: bool)
    requires 0 <= pos && pos + 4 <= |data|
    ensures GetBe32Step(data, pos, error) == (ReadBe32(data, pos), pos + 4, error)
  {
  }

  /** Skipping a record that the saver wrote consumes exactly that record, without error. */
  lemma OffsetSkipsSavedRecord(prefix: seq<byte>, title: CString, rest: seq<byte>)
    ensures var record := ExtraDataRecord(title);
      OffsetExtraDataStep(prefix + record + rest, |prefix|, false) == (|prefix| + |record|, false)
  {
    var record := ExtraDataRecord(title);
    var data := prefix + record + rest;
    var p := |prefix|;
    assert data[p..p + |record|] == record;
    assert ReadBe32(data, p) == ReadBe32(record, 0);
    assert ReadBe32(data, p + 4) == ReadBe32(record, 4);
    assert ReadBe32(data, p + 8) == ReadBe32(record, 8);
    GetBe32InBounds(data, p, false);
    GetBe32InBounds(data, p + 4, false);
    GetBe32InBounds(data, p + 8, false);
  }

  /** A stream with four bytes left that do not spell the magic word is left where it was. */
  lemma OffsetLeavesForeignData(data: seq<byte>, pos: int, error: bool)
    requires 0 <= pos && pos + 4 <= |data| && ReadBe32(data, pos) != SnapshotDataMagic
    ensures OffsetExtraDataStep(data, pos, error) == (pos, error)
  {
    GetBe32InBounds(data, pos, error);
  }

  /**
   * With fewer than four bytes left the magic word cannot be read (a read past the end gives 0, and the magic
   * does not end in 0), so the error is set and the position ends four bytes before the end of the data: behind
   * where reading started.
   */
  lemma OffsetRewindsShortStream(data: seq<byte>, pos: int, error: bool)
    requires 0 <= pos <= |data| < pos + 4
    ensures OffsetExtraDataStep(data, pos, error) == (|data| - 4, true)
    ensures |data| - 4 < pos
  {
    var (b0, p1, e1) := GetByteStep(data, pos, error);
    var (b1, p2, e2) := GetByteStep(data, p1, e1);
    var (b2, p3, e3) := GetByteStep(data, p2, e2);
    var (b3, p4, e4) := GetByteStep(data, p3, e3);
    assert p3 == |data| && b3 == 0 && p4 == |data| && e4;
    var magic := b0 as int * 0x100_0000 + b1 as int * 0x1_0000 + b2 as int * 0x100 + b3 as int;
    assert magic == 0x100 * (b0 as int * 0x1_0000 + b1 as int * 0x100 + b2 as int);
    assert GetBe32Step(data, pos, error) == (magic, p4, e4);
  }

  /** Saving a record and then skipping it from where it starts brings the reader to the end of the record. */
  method SaveThenOffset(prefix: seq<byte>, xbeTitle: Option<CString>) returns (recordEnd: int, error: bool)
    ensures recordEnd == |prefix| + |ExtraDataRecord(GetSnapshotTitle(xbeTitle))| && !error
  {
    var f := new QemuFile(prefix, |prefix|);
    SaveExtraData(f, xbeTitle);
    assert f.data == prefix + ExtraDataRecord(GetSnapshotTitle(xbeTitle)) + [];
    OffsetSkipsSavedRecord(prefix, GetSnapshotTitle(xbeTitle), []);
    var _ := OffsetExtraData(f);
    recordEnd, error := f.pos, f.error;
  }
}
