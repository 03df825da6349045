/**
 * Firmware validation on the device (`firmware_verify.c`), and
 * `config_read`, on which it rests: the configuration record read back
 * from flash, the checks a bank must pass before it may be booted, the
 * checks a freshly received header must pass, and version comparison.
 * Everything here only reads the flash.
 */
module FirmwareVerify {
  import opened Bytes
  import opened Crc
  import opened IapLayout
  import opened FlashMemory

  // ---------------------------------------------------------------------------
  // The configuration record

  /**
   * `config_read`: the record is copied out of the configuration area
   * whatever it holds; it is valid when its magic is right and the CRC-32
   * of its first 56 bytes equals its stored `config_crc32`.
   */
  function ConfigRead(f: Flash): (bool, SystemConfig)
  {
    var raw := Read(f, CONFIG_AREA_ADDR, SYSTEM_CONFIG_SIZE);
    var c := DecodeConfig(raw);
    (c.magic == CONFIG_MAGIC && Crc32(raw[..SYSTEM_CONFIG_SIZE - 4]) == c.configCrc32, c)
  }

  // ---------------------------------------------------------------------------
  // Banks

  /** Bank 0 is A; any other value means B. */
  function BankAddr(bank: byte): (r: u32)
    ensures r == APP_A_SECTOR_ADDR || r == APP_B_SECTOR_ADDR
  {
    if bank == 0 then APP_A_SECTOR_ADDR else APP_B_SECTOR_ADDR
  }

  function BankInfo(c: SystemConfig, bank: byte): FirmwareInfo
  {
    if bank == 0 then c.bankA else c.bankB
  }

  /** The first word of a Cortex-M image is its initial stack pointer, which must lie in SRAM. */
  predicate StackPointerPlausible(w: u32)
  {
    (w as bv32) & 0x2FFF_0000 == 0x2000_0000
  }

  /** The image proper starts right after the 24-byte header. */
  function ImageStart(bank: byte): int
  {
    BankAddr(bank) + FIRMWARE_INFO_SIZE
  }

  /**
   * `firmware_verify`: the stored configuration must be valid, and the
   * bank's entry in it must carry the firmware magic and the valid flag, a
   * size from 1 to `APP_BANK_SIZE`, the CRC-32 of that many image bytes, and
   * an image whose first word is a plausible stack pointer.
   */
  predicate Verify(f: Flash, bank: byte)
  {
    var (ok, c) := ConfigRead(f);
    var info := BankInfo(c, bank);
    ok
    && info.magic == FIRMWARE_MAGIC
    && info.isValid == FIRMWARE_VALID_FLAG
    && 0 < info.firmwareSize <= APP_BANK_SIZE
    && Crc32(Read(f, ImageStart(bank), info.firmwareSize)) == info.firmwareCrc32
    && StackPointerPlausible(ReadWord(f, ImageStart(bank)))
  }

  /** Every non-zero bank number is checked exactly as bank 1 (B). */
  lemma VerifyAnyOtherBankIsB(f: Flash, bank: byte)
    requires bank != 0
    ensures Verify(f, bank) == Verify(f, 1)
  {
  }

  /**
   * Verification depends on nothing but the configuration record and the
   * bank's own image: two flash contents that agree on those give the same
   * verdict.
   */
  lemma VerifyReadsOnly(f: Flash, g: Flash, bank: byte)
    requires Read(f, CONFIG_AREA_ADDR, SYSTEM_CONFIG_SIZE) == Read(g, CONFIG_AREA_ADDR, SYSTEM_CONFIG_SIZE)
    requires Read(f, ImageStart(bank), APP_BANK_SIZE) == Read(g, ImageStart(bank), APP_BANK_SIZE)
    ensures Verify(f, bank) == Verify(g, bank)
  {
    var c := ConfigRead(f).1;
    var size := BankInfo(c, bank).firmwareSize;
    if 0 < size <= APP_BANK_SIZE {
      assert Read(f, ImageStart(bank), size) == Read(f, ImageStart(bank), APP_BANK_SIZE)[..size];
      assert Read(g, ImageStart(bank), size) == Read(g, ImageStart(bank), APP_BANK_SIZE)[..size];
      assert Read(f, ImageStart(bank), 4) == Read(f, ImageStart(bank), APP_BANK_SIZE)[..4];
      assert Read(g, ImageStart(bank), 4) == Read(g, ImageStart(bank), APP_BANK_SIZE)[..4];
    }
  }

  // ---------------------------------------------------------------------------
  // A received header

  /** The bounds on a firmware size shared by both checks: 1 to `APP_BANK_SIZE`. */
  predicate SizeInRange(size: u32)
  {
    size != 0 && size <= APP_BANK_SIZE
  }

  /**
   * `firmware_parse_header`: the 24 bytes at `addr` are copied out; they
   * are accepted when they carry the firmware magic and a size in range.
   * The valid flag is not looked at.
   */
  function ParseHeader(f: Flash, addr: int): (bool, FirmwareInfo)
    requires Within(addr, FIRMWARE_INFO_SIZE)
  {
    var info := DecodeInfo(Read(f, addr, FIRMWARE_INFO_SIZE));
    (info.magic == FIRMWARE_MAGIC && SizeInRange(info.firmwareSize), info)
  }

  /**
   * Reading back an encoded header gives that header, accepted exactly when
   * its magic is right and its size is from 1 to 20480, whatever its valid
   * flag says.
   */
  lemma ParseHeaderOfEncoded(f: Flash, addr: int, h: FirmwareInfo)
    requires Within(addr, FIRMWARE_INFO_SIZE)
    requires Read(f, addr, FIRMWARE_INFO_SIZE) == EncodeInfo(h)
    ensures ParseHeader(f, addr).1 == h
    ensures ParseHeader(f, addr).0 <==> h.magic == 0x5AA5_F00F && 1 <= h.firmwareSize <= 20480
  {
    DecodeEncodeInfo(h);
  }

  // ---------------------------------------------------------------------------
  // Versions

  /**
   * `firmware_compare_version`: 1, 0 or -1 as the first (major, minor,
   * patch) triple is newer than, equal to or older than the second.
   */
  function CompareVersion(v1: seq<byte>, v2: seq<byte>): int
    requires |v1| == 3 && |v2| == 3
  {
    if v1[0] > v2[0] then 1
    else if v1[0] < v2[0] then -1
    else if v1[1] > v2[1] then 1
    else if v1[1] < v2[1] then -1
    else if v1[2] > v2[2] then 1
    else if v1[2] < v2[2] then -1
    else 0
  }

  /** A version as one number: each part is a byte, so this orders versions lexicographically. */
  function VersionNumber(v: seq<byte>): nat
    requires |v| == 3
  {
    (v[0] as int) * 0x1_0000 + (v[1] as int) * 0x100 + v[2] as int
  }

  function Sign(x: int): int
  {
    if x > 0 then 1 else if x < 0 then -1 else 0
  }

  lemma HigherPartWins(a: byte, b: byte, restA: nat, restB: nat, scale: nat)
    requires a > b && restA < scale && restB < scale
    ensures a * scale + restA > b * scale + restB
  {
    assert a * scale >= (b + 1) * scale == b * scale + scale;
  }

  /**
   * The comparison agrees with the numeric order of `VersionNumber`: it is
   * 0 exactly for equal versions and swapping the arguments negates it.
   */
  lemma CompareVersionOrders(v1: seq<byte>, v2: seq<byte>)
    requires |v1| == 3 && |v2| == 3
    ensures CompareVersion(v1, v2) == Sign(VersionNumber(v1) - VersionNumber(v2))
    ensures CompareVersion(v1, v2) == 0 <==> v1 == v2
    ensures CompareVersion(v2, v1) == -CompareVersion(v1, v2)
  {
    var low1: nat, low2: nat := (v1[1] as int) * 0x100 + v1[2] as int, (v2[1] as int) * 0x100 + v2[2] as int;
    if v1[0] > v2[0] {
      HigherPartWins(v1[0], v2[0], low1, low2, 0x1_0000);
    } else if v1[0] < v2[0] {
      HigherPartWins(v2[0], v1[0], low2, low1, 0x1_0000);
    } else if v1[1] > v2[1] {
      HigherPartWins(v1[1], v2[1], v1[2], v2[2], 0x100);
    } else if v1[1] < v2[1] {
      HigherPartWins(v2[1], v1[1], v2[2], v1[2], 0x100);
    }
    if CompareVersion(v1, v2) == 0 {
      assert v1 == [v1[0], v1[1], v1[2]] == [v2[0], v2[1], v2[2]] == v2;
    }
  }
}
