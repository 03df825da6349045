/**
 * The host-side firmware packer: it prefixes a raw application image with
 * the 24-byte firmware header (magic, version, size, CRC-32, build time,
 * valid flag) and can decode that header back for inspection.
 *
 * The file reads and writes around the packer become parameters: the input
 * file is an `Option` (None when it does not exist), the build time is a
 * parameter, and the answer to the interactive size warning is a flag.
 */
module FirmwarePacker {
  import opened Wrappers
  import opened Bytes
  import opened Crc
  import opened IapLayout

  const MAGIC: u32 := 0x5AA5_F00F
  const VALID_FLAG: byte := 0xAA
  /** The size above which the packer asks before going on. */
  const MAX_SIZE: nat := 24 * 1024

  // ---------------------------------------------------------------------------
  // str.split('.') and int()

  /** `s.split('.')`: the pieces between the dots, empty ones included. */
  function Split(s: string): (parts: seq<string>)
    ensures |parts| >= 1
    ensures forall i :: 0 <= i < |parts| ==> '.' !in parts[i]
    decreases |s|
  {
    if s == [] then [[]]
    else
      var rest := Split(s[1..]);
      if s[0] == '.' then [[]] + rest
      else [[s[0]] + rest[0]] + rest[1..]
  }

  /** `'.'.join(parts)`, the inverse of `Split`. */
  function Join(parts: seq<string>): string
    requires |parts| >= 1
  {
    if |parts| == 1 then parts[0] else parts[0] + ['.'] + Join(parts[1..])
  }

  lemma {:induction false} JoinSplit(s: string)
    ensures Join(Split(s)) == s
    decreases |s|
  {
    if s != [] {
      var rest := Split(s[1..]);
      JoinSplit(s[1..]);
      if s[0] == '.' {
        assert Split(s) == [[]] + rest;
        assert Split(s)[1..] == rest;
      } else {
        var parts := [[s[0]] + rest[0]] + rest[1..];
        assert Split(s) == parts;
        if |rest| == 1 {
          assert Join(parts) == [s[0]] + rest[0];
        } else {
          assert parts[1..] == rest[1..];
          assert Join(rest) == rest[0] + ['.'] + Join(rest[1..]);
        }
      }
    }
  }

  /** A character other than a dot joins the first piece. */
  lemma SplitStep(c: char, x: string)
    requires c != '.'
    ensures Split([c] + x) == [[c] + Split(x)[0]] + Split(x)[1..]
  {
    assert ([c] + x)[1..] == x;
  }

  /** The inductive step of `SplitNoDot`: one more leading character that is not a dot. */
  lemma SplitNoDotStep(p: string, t: string)
    requires p != [] && p[0] != '.'
    requires Split(p[1..] + t) == [p[1..] + Split(t)[0]] + Split(t)[1..]
    ensures Split(p + t) == [p + Split(t)[0]] + Split(t)[1..]
  {
    var u := Split(t);
    var v := Split(p[1..] + t);
    assert v[0] == p[1..] + u[0] && v[1..] == u[1..];
    SplitStep(p[0], p[1..] + t);
    assert [p[0]] + p[1..] == p;
    AppendAssoc([p[0]], p[1..], t);
    AppendAssoc([p[0]], p[1..], u[0]);
  }

  lemma AppendAssoc(a: string, b: string, c: string)
    ensures a + (b + c) == (a + b) + c
  {
  }

  lemma {:induction false} SplitNoDot(p: string, t: string)
    requires '.' !in p
    ensures Split(p + t) == [p + Split(t)[0]] + Split(t)[1..]
    decreases |p|
  {
    if p != [] {
      assert '.' !in p[1..];
      SplitNoDot(p[1..], t);
      SplitNoDotStep(p, t);
    } else {
      var u := Split(t);
      assert p + t == t && [] + u[0] == u[0];
      assert [u[0]] + u[1..] == u;
    }
  }

  lemma {:induction false} SplitJoin(parts: seq<string>)
    requires |parts| >= 1
    requires forall i :: 0 <= i < |parts| ==> '.' !in parts[i]
    ensures Split(Join(parts)) == parts
  {
    if |parts| == 1 {
      SplitNoDot(parts[0], []);
      assert parts[0] + [] == parts[0];
    } else {
      var t := Join(parts[1..]);
      SplitJoin(parts[1..]);
      assert Split(['.'] + t) == [[]] + Split(t) by {
        assert (['.'] + t)[1..] == t;
      }
      assert parts[0] + ['.'] + t == parts[0] + (['.'] + t);
      SplitNoDot(parts[0], ['.'] + t);
      assert parts[0] + [] == parts[0];
    }
  }

  predicate IsDigitChar(c: char) { '0' <= c <= '9' }

  predicate AllDigitChars(s: string) { forall i :: 0 <= i < |s| ==> IsDigitChar(s[i]) }

  /** The value of a run of ASCII decimal digits. */
  function CharsValue(s: string): nat
    requires AllDigitChars(s)
  {
    if s == [] then 0
    else
      assert IsDigitChar(s[|s| - 1]);
      CharsValue(s[..|s| - 1]) * 10 + (s[|s| - 1] as int - '0' as int)
  }

  /**
   * `int(s)` on a string: an optional sign and at least one ASCII digit;
   * anything else raises `ValueError`, here `None`.
   */
  function ParseInt(s: string): (r: Option<int>)
    ensures s == [] ==> r == None
    ensures r.Some? <==> s != [] && (AllDigitChars(s) || ((s[0] == '+' || s[0] == '-') && |s| > 1 && AllDigitChars(s[1..])))
    ensures s != [] && AllDigitChars(s) ==> r == Some(CharsValue(s))
    ensures |s| > 1 && s[0] == '+' && AllDigitChars(s[1..]) ==> r == Some(CharsValue(s[1..]))
    ensures |s| > 1 && s[0] == '-' && AllDigitChars(s[1..]) ==> r.Some? && r.value == -(CharsValue(s[1..]) as int)
    ensures r.Some? && s[0] != '-' ==> r.value >= 0
  {
    if s != [] && (s[0] == '+' || s[0] == '-') then
      if |s| > 1 && AllDigitChars(s[1..]) then
        var n: int := CharsValue(s[1..]);
        Some(if s[0] == '-' then -n else n)
      else None
    else if s != [] && AllDigitChars(s) then Some(CharsValue(s))
    else None
  }

  /** ASCII bytes as a string. */
  function ToChars(b: seq<byte>): (s: string)
    ensures |s| == |b|
  {
    seq(|b|, i requires 0 <= i < |b| => b[i] as char)
  }

  lemma {:induction false} CharsValueOfDigits(d: seq<byte>)
    requires forall i :: 0 <= i < |d| ==> IsDigit(d[i])
    ensures AllDigitChars(ToChars(d))
    ensures CharsValue(ToChars(d)) == DigitsValue(d)
  {
    if d != [] {
      CharsValueOfDigits(d[..|d| - 1]);
      assert ToChars(d)[..|d| - 1] == ToChars(d[..|d| - 1]);
    }
  }

  /** `int(str(n)) == n`. */
  lemma ParseIntOfDecimal(n: nat)
    ensures ParseInt(ToChars(Decimal(n))) == Some(n)
  {
    CharsValueOfDigits(Decimal(n));
    DigitsValueOfDecimal(n);
  }

  // ---------------------------------------------------------------------------
  // Version string

  datatype Version = Version(major: int, minor: int, patch: int)

  /**
   * The version parse of `pack_firmware`: the first part is required, a
   * missing second or third part counts as 0, parts after the third are
   * ignored, and a part that `int()` rejects fails the parse.
   */
  function ParseVersion(v: string): Option<Version>
  {
    var parts := Split(v);
    var major := ParseInt(parts[0]);
    var minor := if |parts| > 1 then ParseInt(parts[1]) else Some(0);
    var patch := if |parts| > 2 then ParseInt(parts[2]) else Some(0);
    if major.Some? && minor.Some? && patch.Some? then
      Some(Version(major.value, minor.value, patch.value))
    else None
  }

  /** The parse reads each of the first three dot-separated parts with `int()`. */
  lemma ParseVersionOfParts(parts: seq<string>)
    requires |parts| >= 1
    requires forall i :: 0 <= i < |parts| ==> '.' !in parts[i]
    ensures ParseVersion(Join(parts)).Some? <==>
      ParseInt(parts[0]).Some?
      && (|parts| > 1 ==> ParseInt(parts[1]).Some?)
      && (|parts| > 2 ==> ParseInt(parts[2]).Some?)
    ensures ParseVersion(Join(parts)).Some? ==>
      var ver := ParseVersion(Join(parts)).value;
      ver.major == ParseInt(parts[0]).value
      && ver.minor == (if |parts| > 1 then ParseInt(parts[1]).value else 0)
      && ver.patch == (if |parts| > 2 then ParseInt(parts[2]).value else 0)
  {
    SplitJoin(parts);
  }

  /** "a" parses as a.0.0. */
  lemma ParseVersionOnePart(a: nat)
    ensures ParseVersion(ToChars(Decimal(a))) == Some(Version(a, 0, 0))
  {
    var sa := ToChars(Decimal(a));
    ParseIntOfDecimal(a);
    NoDotInDecimal(a);
    ParseVersionOfParts([sa]);
  }

  /** "a.b" parses as a.b.0. */
  lemma ParseVersionTwoParts(a: nat, b: nat)
    ensures ParseVersion(ToChars(Decimal(a)) + "." + ToChars(Decimal(b))) == Some(Version(a, b, 0))
  {
    var sa, sb := ToChars(Decimal(a)), ToChars(Decimal(b));
    ParseIntOfDecimal(a);
    ParseIntOfDecimal(b);
    NoDotInDecimal(a);
    NoDotInDecimal(b);
    ParseVersionOfParts([sa, sb]);
    assert Join([sa, sb]) == sa + "." + sb;
  }

  /** "a.b.c.<anything without a dot>" parses as a.b.c: the fourth part is never read. */
  lemma ParseVersionExtraPart(a: nat, b: nat, c: nat, rest: string)
    requires '.' !in rest
    ensures ParseVersion(ToChars(Decimal(a)) + "." + ToChars(Decimal(b)) + "." + ToChars(Decimal(c)) + "." + rest)
      == Some(Version(a, b, c))
  {
    var sa, sb, sc := ToChars(Decimal(a)), ToChars(Decimal(b)), ToChars(Decimal(c));
    ParseIntOfDecimal(a);
    ParseIntOfDecimal(b);
    ParseIntOfDecimal(c);
    NoDotInDecimal(a);
    NoDotInDecimal(b);
    NoDotInDecimal(c);
    ParseVersionOfParts([sa, sb, sc, rest]);
    JoinFour(sa, sb, sc, rest);
  }

  lemma JoinFour(a: string, b: string, c: string, d: string)
    ensures Join([a, b, c, d]) == a + "." + b + "." + c + "." + d
  {
    assert [c, d][1..] == [d];
    assert Join([c, d]) == c + "." + d;
    assert [b, c, d][1..] == [c, d];
    assert Join([b, c, d]) == b + "." + (c + "." + d);
    assert [a, b, c, d][1..] == [b, c, d];
    assert Join([a, b, c, d]) == a + "." + (b + "." + (c + "." + d));
  }

  lemma NoDotInDecimal(n: nat)
    ensures '.' !in ToChars(Decimal(n))
  {
    var s := ToChars(Decimal(n));
    forall i | 0 <= i < |s|
      ensures s[i] != '.'
    {
      assert IsDigit(Decimal(n)[i]);
    }
  }

  /** An empty part among the first three fails the parse, as `int('')` does. */
  lemma EmptyPartFails(parts: seq<string>, k: nat)
    requires |parts| >= 1
    requires forall i :: 0 <= i < |parts| ==> '.' !in parts[i]
    requires k < 3 && k < |parts| && parts[k] == []
    ensures ParseVersion(Join(parts)) == None
  {
    ParseVersionOfParts(parts);
  }

  // ---------------------------------------------------------------------------
  // pack_firmware

  datatype PackError =
    | InputMissing       // the input file does not exist
    | Declined           // the image exceeds 24 KB and the user did not confirm
    | BadVersion         // ValueError or IndexError while parsing the version
    | VersionOutOfRange  // a version part above 255
    | StructError        // struct.pack raises: a negative part, or a field beyond 32 bits

  /** The header as the packer concatenates its `struct.pack` pieces. */
  function PackHeader(ver: Version, size: u32, crc: u32, timestamp: u32): (r: seq<byte>)
    requires 0 <= ver.major < 0x100 && 0 <= ver.minor < 0x100 && 0 <= ver.patch < 0x100
    ensures |r| == 24
  {
    LE32(MAGIC)
    + [ver.major, ver.minor, ver.patch, 0]
    + LE32(size)
    + LE32(crc)
    + LE32(timestamp)
    + [VALID_FLAG, 0, 0, 0]
  }

  /** The header record the packer writes, as the device's `firmware_info_t` reads it. */
  function PackedInfo(ver: Version, size: u32, crc: u32, timestamp: u32): FirmwareInfo
    requires 0 <= ver.major < 0x100 && 0 <= ver.minor < 0x100 && 0 <= ver.patch < 0x100
  {
    FirmwareInfo(MAGIC, ver.major, ver.minor, ver.patch, 0, size, crc, timestamp, VALID_FLAG, [0, 0, 0])
  }

  /** The packer's byte layout is exactly the device's `firmware_info_t`. */
  lemma PackHeaderIsFirmwareInfo(ver: Version, size: u32, crc: u32, timestamp: u32)
    requires 0 <= ver.major < 0x100 && 0 <= ver.minor < 0x100 && 0 <= ver.patch < 0x100
    ensures PackHeader(ver, size, crc, timestamp) == EncodeInfo(PackedInfo(ver, size, crc, timestamp))
    ensures DecodeInfo(PackHeader(ver, size, crc, timestamp)) == PackedInfo(ver, size, crc, timestamp)
  {
    DecodeEncodeInfo(PackedInfo(ver, size, crc, timestamp));
  }

  /**
   * `pack_firmware`: the output file's contents, header then image, or the
   * reason it stops. The checks run in the source's order: the input file,
   * the size warning, the version parse, the range check, then `struct.pack`.
   */
  function PackFirmware(input: Option<seq<byte>>, version: string, timestamp: int, confirmLarge: bool)
    : (r: Result<seq<byte>, PackError>)
    ensures r.Ok? ==> input.Some? && |input.value| < 0x1_0000_0000 && 0 <= timestamp < 0x1_0000_0000
    ensures r.Ok? ==>
      && ParseVersion(version).Some?
      && 0 <= ParseVersion(version).value.major < 0x100
      && 0 <= ParseVersion(version).value.minor < 0x100
      && 0 <= ParseVersion(version).value.patch < 0x100
  {
    if input.None? then Err(InputMissing)
    else
      var data := input.value;
      if |data| > MAX_SIZE && !confirmLarge then Err(Declined)
      else
        match ParseVersion(version)
        case None => Err(BadVersion)
        case Some(ver) =>
          if ver.major > 255 || ver.minor > 255 || ver.patch > 255 then Err(VersionOutOfRange)
          else if ver.major < 0 || ver.minor < 0 || ver.patch < 0
            || |data| >= 0x1_0000_0000 || !(0 <= timestamp < 0x1_0000_0000) then Err(StructError)
          else Ok(PackHeader(ver, |data|, Crc32(data), timestamp) + data)
  }

  /**
   * A successful pack is the 24-byte header of the parsed version, the image
   * length and its CRC-32, followed by the image unchanged; it succeeds
   * exactly when the file exists, the size is confirmed, the version parses
   * into the byte range and the length and time fit in 32 bits.
   */
  lemma PackFirmwareLayout(input: Option<seq<byte>>, version: string, timestamp: int, confirmLarge: bool)
    ensures PackFirmware(input, version, timestamp, confirmLarge).Ok? <==>
      input.Some? && (|input.value| > MAX_SIZE ==> confirmLarge)
      && ParseVersion(version).Some?
      && 0 <= ParseVersion(version).value.major <= 255
      && 0 <= ParseVersion(version).value.minor <= 255
      && 0 <= ParseVersion(version).value.patch <= 255
      && |input.value| < 0x1_0000_0000 && 0 <= timestamp < 0x1_0000_0000
    ensures PackFirmware(input, version, timestamp, confirmLarge).Ok? ==>
      var out := PackFirmware(input, version, timestamp, confirmLarge).value;
      var data := input.value;
      |out| == 24 + |data|
      && out[24..] == data
      && out[..24] == EncodeInfo(PackedInfo(ParseVersion(version).value, |data|, Crc32(data), timestamp))
  {
    var r := PackFirmware(input, version, timestamp, confirmLarge);
    if r.Ok? {
      var data := input.value;
      var ver := ParseVersion(version).value;
      PackHeaderIsFirmwareInfo(ver, |data|, Crc32(data), timestamp);
      assert r.value == PackHeader(ver, |data|, Crc32(data), timestamp) + data;
    }
  }

  // ---------------------------------------------------------------------------
  // unpack_firmware

  datatype UnpackError = FileMissing | TooShort | BadMagic

  /**
   * `unpack_firmware`: the first 24 bytes of the file read as a header; the
   * file must exist, hold 24 bytes and start with the magic word.
   */
  function UnpackFirmware(file: Option<seq<byte>>): (r: Result<FirmwareInfo, UnpackError>)
    ensures r.Ok? <==> file.Some? && |file.value| >= 24 && ReadLE32(file.value[0..4]) == MAGIC
  {
    if file.None? then Err(FileMissing)
    else if |file.value| < 24 then Err(TooShort)
    else
      var info := DecodeInfo(file.value[..24]);
      assert file.value[..24][0..4] == file.value[0..4];
      if info.magic != MAGIC then Err(BadMagic) else Ok(info)
  }

  /** The validity the inspector reports: byte 20 is 0xAA. */
  predicate ReportedValid(info: FirmwareInfo)
  {
    info.isValid == VALID_FLAG
  }

  /**
   * Inspecting a packed file gives back every field the packer wrote, and
   * the header is reported valid.
   */
  lemma UnpackOfPack(input: Option<seq<byte>>, version: string, timestamp: int, confirmLarge: bool)
    requires PackFirmware(input, version, timestamp, confirmLarge).Ok?
    ensures var out := PackFirmware(input, version, timestamp, confirmLarge).value;
      var ver := ParseVersion(version).value;
      UnpackFirmware(Some(out)) == Ok(PackedInfo(ver, |input.value|, Crc32(input.value), timestamp))
      && ReportedValid(UnpackFirmware(Some(out)).value)
  {
    var out := PackFirmware(input, version, timestamp, confirmLarge).value;
    var ver := ParseVersion(version).value;
    var data := input.value;
    PackFirmwareLayout(input, version, timestamp, confirmLarge);
    DecodeEncodeInfo(PackedInfo(ver, |data|, Crc32(data), timestamp));
  }
}
