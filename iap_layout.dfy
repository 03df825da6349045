/**
 * The flash partition map of the STM32F103C8T6 bootloader (64 sectors of
 * 1 KB), the upgrade status codes, and the two packed records it keeps in
 * flash: the 24-byte firmware header `firmware_info_t` and the 60-byte
 * system configuration `system_config_t`, both little-endian.
 */
module IapLayout {
  import opened Bytes

  const FLASH_SECTOR_SIZE: nat := 1024
  const FLASH_SECTOR_NUM: nat := 64
  const FLASH_START_ADDR: nat := 0x0800_0000
  const FLASH_END_ADDR: nat := FLASH_START_ADDR + FLASH_SECTOR_NUM * FLASH_SECTOR_SIZE

  const BOOT_SECTOR_ADDR: nat := 0x0800_0000
  const BOOT_SECTOR_SIZE: nat := 0x4000
  const CONFIG_AREA_ADDR: nat := 0x0800_4000
  const CONFIG_AREA_SIZE: nat := 0x800
  const APP_A_SECTOR_ADDR: nat := 0x0800_4800
  const APP_A_SECTOR_SIZE: nat := 0x5000
  const APP_A_ERASE_SECTORS: nat := APP_A_SECTOR_SIZE / FLASH_SECTOR_SIZE
  const APP_B_SECTOR_ADDR: nat := 0x0800_9800
  const APP_B_SECTOR_SIZE: nat := 0x5000
  const APP_B_ERASE_SECTORS: nat := APP_B_SECTOR_SIZE / FLASH_SECTOR_SIZE
  const LOG_AREA_ADDR: nat := 0x0800_E800
  const LOG_AREA_SIZE: nat := 0x800
  const APP_BANK_SIZE: nat := APP_A_SECTOR_SIZE

  const FIRMWARE_MAGIC: u32 := 0x5AA5_F00F
  const CONFIG_MAGIC: u32 := 0xA5A5_A5A5
  const FIRMWARE_VALID_FLAG: byte := 0xAA

  const UPGRADE_STATUS_IDLE: byte := 0x00
  const UPGRADE_STATUS_DOWNLOADING: byte := 0x01
  const UPGRADE_STATUS_VERIFYING: byte := 0x02
  const UPGRADE_STATUS_INSTALLING: byte := 0x03
  const UPGRADE_STATUS_SUCCESS: byte := 0x04
  const UPGRADE_STATUS_FAILED: byte := 0x05

  /** The six upgrade status codes, in the order the header lists them. */
  function StatusCodes(): (r: seq<byte>)
    ensures |r| == 6
    ensures forall i :: 0 <= i < |r| ==> r[i] == i
  {
    [UPGRADE_STATUS_IDLE, UPGRADE_STATUS_DOWNLOADING, UPGRADE_STATUS_VERIFYING,
     UPGRADE_STATUS_INSTALLING, UPGRADE_STATUS_SUCCESS, UPGRADE_STATUS_FAILED]
  }

  /**
   * The partitions follow each other with no gap and no overlap, the last
   * one ends inside flash, and each application bank is 20 whole sectors.
   */
  lemma PartitionsTile()
    ensures BOOT_SECTOR_ADDR == FLASH_START_ADDR
    ensures BOOT_SECTOR_ADDR + BOOT_SECTOR_SIZE == CONFIG_AREA_ADDR
    ensures CONFIG_AREA_ADDR + CONFIG_AREA_SIZE == APP_A_SECTOR_ADDR
    ensures APP_A_SECTOR_ADDR + APP_A_SECTOR_SIZE == APP_B_SECTOR_ADDR
    ensures APP_B_SECTOR_ADDR + APP_B_SECTOR_SIZE == LOG_AREA_ADDR
    ensures LOG_AREA_ADDR + LOG_AREA_SIZE == 0x0800_F000 <= FLASH_END_ADDR
    ensures APP_A_ERASE_SECTORS == APP_B_ERASE_SECTORS == 20
    ensures APP_A_ERASE_SECTORS * FLASH_SECTOR_SIZE == APP_A_SECTOR_SIZE
    ensures CONFIG_AREA_SIZE / FLASH_SECTOR_SIZE == 2
  {
  }

  // ---------------------------------------------------------------------------
  // firmware_info_t

  type Bytes3 = s: seq<byte> | |s| == 3 witness [0, 0, 0]

  /** One firmware header, field by field as `firmware_info_t` declares them. */
  datatype FirmwareInfo = FirmwareInfo(
    magic: u32,
    versionMajor: byte,
    versionMinor: byte,
    versionPatch: byte,
    reserved1: byte,
    firmwareSize: u32,
    firmwareCrc32: u32,
    buildTimestamp: u32,
    isValid: byte,
    reserved2: Bytes3)

  const FIRMWARE_INFO_SIZE: nat := 24

  /** The packed layout: offsets 0, 4, 5, 6, 7, 8, 12, 16, 20 and 21. */
  function EncodeInfo(f: FirmwareInfo): (r: seq<byte>)
    ensures |r| == FIRMWARE_INFO_SIZE
  {
    LE32(f.magic) + [f.versionMajor, f.versionMinor, f.versionPatch, f.reserved1]
    + LE32(f.firmwareSize) + LE32(f.firmwareCrc32) + LE32(f.buildTimestamp)
    + [f.isValid] + f.reserved2
  }

  /** Reading a header out of 24 bytes of flash, as a `memcpy` into the struct does. */
  function DecodeInfo(s: seq<byte>): FirmwareInfo
    requires |s| == FIRMWARE_INFO_SIZE
  {
    FirmwareInfo(
      ReadLE32(s[0..4]), s[4], s[5], s[6], s[7],
      ReadLE32(s[8..12]), ReadLE32(s[12..16]), ReadLE32(s[16..20]),
      s[20], s[21..24])
  }

  lemma DecodeEncodeInfo(f: FirmwareInfo)
    ensures DecodeInfo(EncodeInfo(f)) == f
  {
    var s := EncodeInfo(f);
    assert s[0..4] == LE32(f.magic);
    assert s[8..12] == LE32(f.firmwareSize);
    assert s[12..16] == LE32(f.firmwareCrc32);
    assert s[16..20] == LE32(f.buildTimestamp);
    assert s[21..24] == f.reserved2;
    ReadLE32OfLE32(f.magic);
    ReadLE32OfLE32(f.firmwareSize);
    ReadLE32OfLE32(f.firmwareCrc32);
    ReadLE32OfLE32(f.buildTimestamp);
  }

  lemma EncodeDecodeInfo(s: seq<byte>)
    requires |s| == FIRMWARE_INFO_SIZE
    ensures EncodeInfo(DecodeInfo(s)) == s
  {
    LE32OfReadLE32(s[0..4]);
    LE32OfReadLE32(s[8..12]);
    LE32OfReadLE32(s[12..16]);
    LE32OfReadLE32(s[16..20]);
    assert s == s[0..4] + s[4..8] + s[8..12] + s[12..16] + s[16..20] + [s[20]] + s[21..24];
  }

  // ---------------------------------------------------------------------------
  // system_config_t

  /** The system configuration, field by field as `system_config_t` declares them. */
  datatype SystemConfig = SystemConfig(
    magic: u32,
    activeBank: byte,
    upgradeStatus: byte,
    bootCount: byte,
    maxBootRetry: byte,
    bankA: FirmwareInfo,
    bankB: FirmwareInfo,
    configCrc32: u32)

  const SYSTEM_CONFIG_SIZE: nat := 60

  /** The bytes the configuration CRC covers: everything but the trailing CRC word. */
  function ConfigBody(c: SystemConfig): (r: seq<byte>)
    ensures |r| == SYSTEM_CONFIG_SIZE - 4
  {
    LE32(c.magic) + [c.activeBank, c.upgradeStatus, c.bootCount, c.maxBootRetry]
    + EncodeInfo(c.bankA) + EncodeInfo(c.bankB)
  }

  /** The packed record: the body followed by `config_crc32` at offset 56. */
  function EncodeConfig(c: SystemConfig): (r: seq<byte>)
    ensures |r| == SYSTEM_CONFIG_SIZE
    ensures r[..SYSTEM_CONFIG_SIZE - 4] == ConfigBody(c)
  {
    ConfigBody(c) + LE32(c.configCrc32)
  }

  function DecodeConfig(s: seq<byte>): SystemConfig
    requires |s| == SYSTEM_CONFIG_SIZE
  {
    SystemConfig(
      ReadLE32(s[0..4]), s[4], s[5], s[6], s[7],
      DecodeInfo(s[8..32]), DecodeInfo(s[32..56]),
      ReadLE32(s[56..60]))
  }

  lemma DecodeEncodeConfig(c: SystemConfig)
    ensures DecodeConfig(EncodeConfig(c)) == c
  {
    var s := EncodeConfig(c);
    assert s[0..4] == LE32(c.magic);
    assert s[8..32] == EncodeInfo(c.bankA);
    assert s[32..56] == EncodeInfo(c.bankB);
    assert s[56..60] == LE32(c.configCrc32);
    ReadLE32OfLE32(c.magic);
    ReadLE32OfLE32(c.configCrc32);
    DecodeEncodeInfo(c.bankA);
    DecodeEncodeInfo(c.bankB);
  }

  lemma EncodeDecodeConfig(s: seq<byte>)
    requires |s| == SYSTEM_CONFIG_SIZE
    ensures EncodeConfig(DecodeConfig(s)) == s
  {
    LE32OfReadLE32(s[0..4]);
    LE32OfReadLE32(s[56..60]);
    EncodeDecodeInfo(s[8..32]);
    EncodeDecodeInfo(s[32..56]);
    SplitConfig(s);
  }

  lemma SplitConfig(s: seq<byte>)
    requires |s| == SYSTEM_CONFIG_SIZE
    ensures s == s[0..4] + [s[4], s[5], s[6], s[7]] + s[8..32] + s[32..56] + s[56..60]
  {
  }
}
