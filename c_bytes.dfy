/** Byte-level helpers for the native (C) and Rust code: C strings, GLib's ASCII classes, fixed-width integer encodings. */
module CBytes {
  import opened Sequences

  /** An unsigned 8-bit value (`uint8_t`, `unsigned char`, Rust `u8`). */
  type byte = b: int | 0 <= b < 0x100

  /** An unsigned 32-bit value (`uint32_t`). */
  type uint32 = v: int | 0 <= v < 0x1_0000_0000

  /** The contents of a NUL-terminated C string: bytes with no NUL among them. */
  type CString = s: seq<byte> | 0 !in s

  /** The string a `char *` buffer holds: its bytes up to the first NUL (or the whole buffer when it has none). */
  function CStr(buf: seq<byte>): (r: seq<byte>)
    ensures |r| <= |buf| && r == buf[..|r|]
    ensures 0 !in r
    ensures |r| < |buf| ==> buf[|r|] == 0
  {
    if buf == [] || buf[0] == 0 then [] else [buf[0]] + CStr(buf[1..])
  }

  /** A byte string with no NUL in it reads back whole, and stops at a NUL placed after it. */
  lemma {:induction false} CStrOfTerminated(s: seq<byte>, rest: seq<byte>)
    requires 0 !in s
    ensures CStr(s) == s
    ensures CStr(s + [0] + rest) == s
  {
    if s != [] {
      CStrOfTerminated(s[1..], rest);
      assert s == [s[0]] + s[1..];
      assert (s + [0] + rest)[1..] == s[1..] + [0] + rest;
    }
  }

  /** `g_ascii_isalnum`. */
  predicate IsAsciiAlnum(c: byte) {
    ('0' as byte <= c <= '9' as byte) || ('A' as byte <= c <= 'Z' as byte) || ('a' as byte <= c <= 'z' as byte)
  }

  /** `g_ascii_isspace`: space, tab, line feed, form feed and carriage return. */
  predicate IsAsciiSpace(c: byte) {
    c == ' ' as byte || c == '\t' as byte || c == '\n' as byte || c == 0x0C || c == '\r' as byte
  }

  /** `g_strstrip` on the contents of a C string. */
  function StrStrip(s: seq<byte>): (r: seq<byte>)
    ensures r == [] <==> forall i :: 0 <= i < |s| ==> IsAsciiSpace(s[i])
    ensures r != [] ==> !IsAsciiSpace(r[0]) && !IsAsciiSpace(r[|r| - 1])
  {
    Trim(s, IsAsciiSpace)
  }

  /** `g_strstrip` removes the leading and the trailing ASCII white space and nothing else. */
  lemma StrStripKeepsMiddle(s: seq<byte>)
    ensures InfixAmidDropped(s, StrStrip(s), LeadingRun(s, IsAsciiSpace), IsAsciiSpace)
  {
    TrimKeepsMiddle(s, IsAsciiSpace);
  }

  /** Two bytes, least significant first: a `uint16_t` as a little-endian host stores it. */
  function Le16(v: nat): (r: seq<byte>)
    requires v < 0x1_0000
    ensures |r| == 2
  {
    [v % 0x100, v / 0x100]
  }

  /** A little-endian unsigned 16-bit field at offset `i`. */
  function ReadLe16(s: seq<byte>, i: nat): (v: nat)
    requires i + 2 <= |s|
    ensures v < 0x1_0000
  {
    s[i] as int + 0x100 * s[i + 1] as int
  }

  lemma ReadLe16OfLe16(v: nat, pre: seq<byte>, post: seq<byte>)
    requires v < 0x1_0000
    ensures ReadLe16(pre + Le16(v) + post, |pre|) == v
  {
    var s := pre + Le16(v) + post;
    assert s[|pre|] == v % 0x100 && s[|pre| + 1] == v / 0x100;
  }

  /** Four bytes, most significant first: `qemu_put_be32`. */
  function Be32(v: uint32): (r: seq<byte>)
    ensures |r| == 4
  {
    var high24 := v / 0x100;
    var high16 := high24 / 0x100;
    [high16 / 0x100, high16 % 0x100, high24 % 0x100, v % 0x100]
  }

  /** A big-endian 32-bit field at offset `i`: `qemu_get_be32`. */
  function ReadBe32(s: seq<byte>, i: nat): uint32
    requires i + 4 <= |s|
  {
    s[i] as int * 0x100_0000 + s[i + 1] as int * 0x1_0000 + s[i + 2] as int * 0x100 + s[i + 3] as int
  }

  lemma ReadBe32OfBe32(v: uint32, pre: seq<byte>, post: seq<byte>)
    ensures ReadBe32(pre + Be32(v) + post, |pre|) == v
  {
    var s := pre + Be32(v) + post;
    var high24 := v / 0x100;
    var high16 := high24 / 0x100;
    assert v == high24 * 0x100 + v % 0x100;
    assert high24 == high16 * 0x100 + high24 % 0x100;
    assert high16 == (high16 / 0x100) * 0x100 + high16 % 0x100;
    assert s[|pre|..|pre| + 4] == Be32(v);
  }

  /** The characters a byte path names, one per byte (exact for ASCII paths). */
  function Latin1(s: seq<byte>): (r: string)
    ensures |r| == |s| && forall i :: 0 <= i < |s| ==> r[i] as int == s[i]
  {
    seq(|s|, i requires 0 <= i < |s| => s[i] as char)
  }

  predicate IsAscii(s: string) {
    forall i :: 0 <= i < |s| ==> s[i] < '\U{0080}'
  }

  /** The bytes of an ASCII string, one per character. */
  function AsciiBytes(s: string): (r: seq<byte>)
    requires IsAscii(s)
    ensures |r| == |s| && forall i :: 0 <= i < |s| ==> r[i] == s[i] as int
  {
    seq(|s|, i requires 0 <= i < |s| => s[i] as byte)
  }

  lemma Latin1OfAscii(s: string)
    requires IsAscii(s)
    ensures Latin1(AsciiBytes(s)) == s
  {
  }

  lemma Latin1Append(a: seq<byte>, b: seq<byte>)
    ensures Latin1(a + b) == Latin1(a) + Latin1(b)
  {
  }
}
