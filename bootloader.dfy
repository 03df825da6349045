/**
 * The bootloader's decisions (`bootloader.c`): handing control to an
 * application, choosing which bank to boot, and the upgrade that receives
 * a firmware into the inactive bank, checks it and switches to it.
 *
 * The YMODEM reception that `upgrade_process` waits for is a parameter
 * here: the bytes that the session programs at the target bank after the
 * receiver has erased that bank.
 */
module Bootloader {
  import opened Wrappers
  import opened Bytes
  import opened Crc
  import opened IapLayout
  import opened FlashMemory
  import opened FirmwareVerify
  import opened ConfigManager

  // ---------------------------------------------------------------------------
  // Starting an application

  /** What `iap_load_app` hands over: the vector table it installs, the stack pointer and the entry point. */
  datatype Launch = Launch(vectorTable: u32, stack: u32, entry: u32)

  /**
   * `iap_load_app`: the first word at `addr` must be a plausible stack
   * pointer, in which case the application starts at the address held in
   * the second word; otherwise the call returns.
   */
  function LoadApp(f: Flash, addr: u32): Option<Launch>
    requires Within(addr, 8)
  {
    var stack := ReadWord(f, addr);
    if StackPointerPlausible(stack) then Some(Launch(addr, stack, ReadWord(f, addr + 4))) else None
  }

  /** `jump_to_app`'s target: the bank's image, right after its 24-byte header. */
  function JumpAddress(bank: byte): (r: u32)
    ensures r == ImageStart(bank) && Within(r, 8)
  {
    if bank == 0 then APP_A_SECTOR_ADDR + 24 else APP_B_SECTOR_ADDR + 24
  }

  /** `jump_to_app`. */
  function JumpToApp(f: Flash, bank: byte): Option<Launch>
  {
    LoadApp(f, JumpAddress(bank))
  }

  /**
   * A bank that passes verification can always be started: the stack
   * pointer check in `iap_load_app` is one of the checks `firmware_verify`
   * makes, on the same word, and the vector table is the image start.
   */
  lemma VerifiedBankStarts(f: Flash, bank: byte)
    requires Verify(f, bank)
    ensures JumpToApp(f, bank).Some?
    ensures JumpToApp(f, bank).value.vectorTable == BankAddr(bank) + FIRMWARE_INFO_SIZE
    ensures JumpToApp(f, bank).value.stack == ReadWord(f, ImageStart(bank))
  {
  }

  /** `iap_load_app` refuses exactly an implausible stack pointer. */
  lemma LoadAppGuard(f: Flash, addr: u32)
    requires Within(addr, 8)
    ensures LoadApp(f, addr).None? <==> (ReadWord(f, addr) as bv32) & 0x2FFF_0000 != 0x2000_0000
    ensures LoadApp(f, addr).Some? ==> LoadApp(f, addr).value.entry == ReadLE32(Read(f, addr + 4, 4))
  {
  }

  /** A save leaves what `jump_to_app` finds in either bank as it was. */
  lemma SaveKeepsLaunch(f: Flash, c: SystemConfig, eraseWorks: bool, bank: byte)
    ensures JumpToApp(Save(f, c, eraseWorks).1, bank) == JumpToApp(f, bank)
  {
    SaveKeepsOtherAreas(f, c, eraseWorks, JumpAddress(bank), 8);
    LaunchReadsOnly(f, Save(f, c, eraseWorks).1, bank);
  }

  /** `jump_to_app` looks at nothing but the first eight bytes of the bank's image. */
  lemma LaunchReadsOnly(f: Flash, g: Flash, bank: byte)
    requires Read(g, JumpAddress(bank), 8) == Read(f, JumpAddress(bank), 8)
    ensures JumpToApp(g, bank) == JumpToApp(f, bank)
  {
    var a := JumpAddress(bank);
    ReadPart(f, a, 8, 0, 4);
    ReadPart(f, a, 8, 4, 4);
    ReadPart(g, a, 8, 0, 4);
    ReadPart(g, a, 8, 4, 4);
  }

  /**
   * Right after a successful save of a record with the configuration
   * magic, a bank verifies exactly when that record's entry for it and the
   * bank's untouched image pass the checks.
   */
  lemma VerifyAfterSave(f: Flash, c: SystemConfig, bank: byte)
    requires c.magic == CONFIG_MAGIC
    ensures var info := BankInfo(c, bank);
      Verify(Save(f, c, true).1, bank) <==>
        info.magic == FIRMWARE_MAGIC && info.isValid == FIRMWARE_VALID_FLAG
        && SizeInRange(info.firmwareSize)
        && Crc32(Read(f, ImageStart(bank), info.firmwareSize)) == info.firmwareCrc32
        && StackPointerPlausible(ReadWord(f, ImageStart(bank)))
  {
    var g := Save(f, c, true).1;
    ReadAfterSave(f, c);
    assert BankInfo(ConfigRead(g).1, bank) == BankInfo(c, bank);
    var size := BankInfo(c, bank).firmwareSize;
    if SizeInRange(size) {
      SaveKeepsOtherAreas(f, c, true, ImageStart(bank), size);
    }
    SaveKeepsOtherAreas(f, c, true, ImageStart(bank), 4);
  }

  // ---------------------------------------------------------------------------
  // Choosing a bank

  /** How `try_boot_firmware` ends: an application started, or 0 returned. */
  datatype BootResult = Jumped(launch: Launch) | NoBootableBank

  /**
   * `try_boot_firmware`: start the active bank if it verifies; otherwise,
   * if the other bank verifies, make it active with a fresh boot count,
   * save, and start it.
   */
  function TryBoot(d: Dev, eraseWorks: bool): (BootResult, Dev)
  {
    var active := d.config.activeBank;
    var launch := JumpToApp(d.flash, active);
    if Verify(d.flash, active) && launch.Some? then (Jumped(launch.value), d)
    else
      var backup := Not(active);
      if !Verify(d.flash, backup) then (NoBootableBank, d)
      else
        var c := d.config.(activeBank := backup, bootCount := 0);
        var f := Save(d.flash, c, eraseWorks).1;
        var d1 := Dev(f, Stamped(c));
        match JumpToApp(f, backup)
        case Some(l) => (Jumped(l), d1)
        case None => (NoBootableBank, d1)
  }

  /** A verified active bank is started as it is, and nothing is written. */
  lemma TryBootPrefersActive(d: Dev, eraseWorks: bool)
    requires Verify(d.flash, d.config.activeBank)
    ensures TryBoot(d, eraseWorks) == (Jumped(JumpToApp(d.flash, d.config.activeBank).value), d)
  {
    VerifiedBankStarts(d.flash, d.config.activeBank);
  }

  /**
   * When only the other bank verifies, it is started, and `g_config` makes
   * it active with a fresh boot count; nothing else in it changes. The
   * stored record follows `g_config` when the erase works.
   */
  lemma TryBootFallsBack(d: Dev, eraseWorks: bool)
    requires !Verify(d.flash, d.config.activeBank) && Verify(d.flash, Not(d.config.activeBank))
    ensures var (r, d1) := TryBoot(d, eraseWorks);
      var backup := Not(d.config.activeBank);
      r.Jumped? && r.launch == JumpToApp(d.flash, backup).value
      && d1.config == Stamped(d.config.(activeBank := backup, bootCount := 0))
      && (eraseWorks ==> ConfigRead(d1.flash).1 == d1.config)
  {
    var backup := Not(d.config.activeBank);
    var c := d.config.(activeBank := backup, bootCount := 0);
    var g := Save(d.flash, c, eraseWorks).1;
    VerifiedBankStarts(d.flash, backup);
    SaveKeepsLaunch(d.flash, c, eraseWorks, backup);
    assert TryBoot(d, eraseWorks) == (Jumped(JumpToApp(g, backup).value), Dev(g, Stamped(c)));
    if eraseWorks {
      ReadAfterSave(d.flash, c);
    }
  }

  /** With neither bank verifying, the result is 0 and nothing changes. */
  lemma TryBootGivesUp(d: Dev, eraseWorks: bool)
    requires !Verify(d.flash, d.config.activeBank) && !Verify(d.flash, Not(d.config.activeBank))
    ensures TryBoot(d, eraseWorks) == (NoBootableBank, d)
  {
  }

  // ---------------------------------------------------------------------------
  // Upgrading

  /** How `upgrade_process` ends: a rejected header, a CRC mismatch, or the switch to the new firmware and the jump (`None` when the jump returns). */
  datatype UpgradeResult = HeaderRejected | CrcMismatch | Installed(launch: Option<Launch>)

  /** The erase the receiver picks for a bank address: A's sector count at A, B's otherwise. */
  function BankSectors(addr: u32): nat
  {
    if addr == APP_A_SECTOR_ADDR then APP_A_ERASE_SECTORS else APP_B_ERASE_SECTORS
  }

  /** What the YMODEM session leaves in the flash: the target bank erased, then `image` programmed at its start. */
  function Receive(f: Flash, addr: u32, image: seq<byte>): Flash
    requires addr == APP_A_SECTOR_ADDR || addr == APP_B_SECTOR_ADDR
    requires Within(addr, |image|)
  {
    Program(Erase(f, addr, BankSectors(addr)), addr, image)
  }

  /** The configuration an upgrade commits: `info` marked valid in `bank`, which becomes active with a fresh count and status success. */
  function Committed(c: SystemConfig, bank: byte, info: FirmwareInfo): SystemConfig
  {
    WithBank(c, bank, info).(activeBank := bank, bootCount := 0, upgradeStatus := UPGRADE_STATUS_SUCCESS)
  }

  /**
   * `upgrade_process`: the target is the inactive bank; the status is saved
   * as downloading, the image is received, the status is saved as
   * verifying; a header without the firmware magic or with a size out of
   * range, or an image whose CRC-32 differs from the header's, ends with
   * the status saved as failed; otherwise the target bank's entry becomes
   * the header marked valid, the target becomes active with a fresh boot
   * count and status success, that is saved, and the target is started.
   */
  function Upgrade(d: Dev, image: seq<byte>, eraseWorks: bool): (UpgradeResult, Dev)
    requires Within(BankAddr(Not(d.config.activeBank)), |image|)
  {
    var target := Not(d.config.activeBank);
    var addr := BankAddr(target);
    var c2 := Stamped(d.config.(upgradeStatus := UPGRADE_STATUS_DOWNLOADING)).(upgradeStatus := UPGRADE_STATUS_VERIFYING);
    var f3 := Staged(d, image, eraseWorks);
    var (ok, info) := ParseHeader(f3, addr);
    if !ok then
      var c3 := Stamped(c2).(upgradeStatus := UPGRADE_STATUS_FAILED);
      (HeaderRejected, Dev(Save(f3, c3, eraseWorks).1, Stamped(c3)))
    else if Crc32(Read(f3, addr + FIRMWARE_INFO_SIZE, info.firmwareSize)) != info.firmwareCrc32 then
      var c3 := Stamped(c2).(upgradeStatus := UPGRADE_STATUS_FAILED);
      (CrcMismatch, Dev(Save(f3, c3, eraseWorks).1, Stamped(c3)))
    else
      var c3 := Committed(Stamped(c2), target, info);
      var f4 := Save(f3, c3, eraseWorks).1;
      (Installed(JumpToApp(f4, target)), Dev(f4, Stamped(c3)))
  }

  /**
   * The flash an upgrade checks: the status saved as downloading, the image
   * received into the inactive bank, the status saved as verifying.
   */
  function Staged(d: Dev, image: seq<byte>, eraseWorks: bool): Flash
    requires Within(BankAddr(Not(d.config.activeBank)), |image|)
  {
    var c1 := d.config.(upgradeStatus := UPGRADE_STATUS_DOWNLOADING);
    var f2 := Receive(Save(d.flash, c1, eraseWorks).1, BankAddr(Not(d.config.activeBank)), image);
    Save(f2, Stamped(c1).(upgradeStatus := UPGRADE_STATUS_VERIFYING), eraseWorks).1
  }

  /** The bytes of the image that the upgrade sees at the target, when it fits in the flash. */
  lemma ReceivedImage(d: Dev, image: seq<byte>, eraseWorks: bool)
    requires Within(BankAddr(Not(d.config.activeBank)), |image|)
    ensures Read(Staged(d, image, eraseWorks), BankAddr(Not(d.config.activeBank)), |image|) == image
  {
    var addr := BankAddr(Not(d.config.activeBank));
    var c1 := d.config.(upgradeStatus := UPGRADE_STATUS_DOWNLOADING);
    var f2 := Receive(Save(d.flash, c1, eraseWorks).1, addr, image);
    SaveKeepsOtherAreas(f2, Stamped(c1).(upgradeStatus := UPGRADE_STATUS_VERIFYING), eraseWorks, addr, |image|);
  }

  /**
   * A failed upgrade changes nothing but the status, which is saved as
   * failed: the active bank and both banks' entries stay as they were.
   */
  lemma UpgradeFailureKeepsConfig(d: Dev, image: seq<byte>, eraseWorks: bool)
    requires Within(BankAddr(Not(d.config.activeBank)), |image|)
    ensures var (r, d1) := Upgrade(d, image, eraseWorks);
      !r.Installed? ==>
        d1.config.upgradeStatus == UPGRADE_STATUS_FAILED
        && d1.config.activeBank == d.config.activeBank
        && d1.config.bootCount == d.config.bootCount
        && d1.config.bankA == d.config.bankA && d1.config.bankB == d.config.bankB
  {
  }

  /**
   * An installed upgrade makes the previously inactive bank active with a
   * fresh count and status success; that bank's entry is the received
   * header marked valid, and the other bank's entry is untouched. The
   * header accepted has the firmware magic, a size from 1 to 20480 and the
   * CRC-32 of that many image bytes.
   */
  lemma UpgradeSuccessSwitches(d: Dev, image: seq<byte>, eraseWorks: bool)
    requires Within(BankAddr(Not(d.config.activeBank)), |image|)
    ensures var (r, d1) := Upgrade(d, image, eraseWorks);
      var target := Not(d.config.activeBank);
      r.Installed? ==>
        d1.config.activeBank == target && target != d.config.activeBank
        && d1.config.bootCount == 0 && d1.config.upgradeStatus == UPGRADE_STATUS_SUCCESS
        && BankInfo(d1.config, target).isValid == FIRMWARE_VALID_FLAG
        && BankInfo(d1.config, target).magic == FIRMWARE_MAGIC
        && 1 <= BankInfo(d1.config, target).firmwareSize <= 20480
        && BankInfo(d1.config, Not(target)) == BankInfo(d.config, Not(target))
  {
  }

  /**
   * After an installed upgrade with a working erase and a valid
   * configuration magic, the new bank passes verification exactly when
   * the jump goes ahead: the upgrade itself never looks at the stack
   * pointer, which verification and `iap_load_app` both require.
   */
  lemma InstalledVerifiesIffStarts(d: Dev, image: seq<byte>)
    requires Within(BankAddr(Not(d.config.activeBank)), |image|)
    requires d.config.magic == CONFIG_MAGIC
    ensures var (r, d1) := Upgrade(d, image, true);
      r.Installed? ==> (Verify(d1.flash, d1.config.activeBank) <==> r.launch.Some?)
  {
    var target := Not(d.config.activeBank);
    var addr := BankAddr(target);
    var c2 := Stamped(d.config.(upgradeStatus := UPGRADE_STATUS_DOWNLOADING)).(upgradeStatus := UPGRADE_STATUS_VERIFYING);
    var f3 := Staged(d, image, true);
    var (ok, info) := ParseHeader(f3, addr);
    if ok && Crc32(Read(f3, addr + FIRMWARE_INFO_SIZE, info.firmwareSize)) == info.firmwareCrc32 {
      var c3 := Committed(Stamped(c2), target, info);
      VerifyAfterSave(f3, c3, target);
      SaveKeepsLaunch(f3, c3, true, target);
    }
  }

  /**
   * A packed image, its 24-byte header followed by the firmware, is
   * installed when the header carries the firmware magic, the firmware's
   * size from 1 to 20480 and its CRC-32; the bank's entry is then that
   * header marked valid.
   */
  lemma PackedImageInstalls(d: Dev, h: FirmwareInfo, firmware: seq<byte>, eraseWorks: bool)
    requires Within(BankAddr(Not(d.config.activeBank)), FIRMWARE_INFO_SIZE + |firmware|)
    requires h.magic == FIRMWARE_MAGIC && h.firmwareSize == |firmware| && 1 <= |firmware| <= APP_BANK_SIZE
    requires h.firmwareCrc32 == Crc32(firmware)
    ensures var (r, d1) := Upgrade(d, EncodeInfo(h) + firmware, eraseWorks);
      r.Installed? && BankInfo(d1.config, Not(d.config.activeBank)) == h.(isValid := FIRMWARE_VALID_FLAG)
  {
    var image := EncodeInfo(h) + firmware;
    var addr := BankAddr(Not(d.config.activeBank));
    var f3 := Staged(d, image, eraseWorks);
    ReceivedImage(d, image, eraseWorks);
    ReadPart(f3, addr, |image|, 0, FIRMWARE_INFO_SIZE);
    ReadPart(f3, addr, |image|, FIRMWARE_INFO_SIZE, |firmware|);
    assert image[..FIRMWARE_INFO_SIZE] == EncodeInfo(h);
    assert image[FIRMWARE_INFO_SIZE..FIRMWARE_INFO_SIZE + |firmware|] == firmware;
    ParseHeaderOfEncoded(f3, addr, h);
    UpgradeAccepted(d, image, eraseWorks, h);
  }

  /**
   * An upgrade whose staged header is accepted and whose image matches the
   * header's CRC-32 is installed, and the target bank's entry is that
   * header marked valid.
   */
  lemma UpgradeAccepted(d: Dev, image: seq<byte>, eraseWorks: bool, h: FirmwareInfo)
    requires Within(BankAddr(Not(d.config.activeBank)), |image|)
    requires var f3 := Staged(d, image, eraseWorks);
      var addr := BankAddr(Not(d.config.activeBank));
      ParseHeader(f3, addr) == (true, h)
      && Crc32(Read(f3, addr + FIRMWARE_INFO_SIZE, h.firmwareSize)) == h.firmwareCrc32
    ensures var (r, d1) := Upgrade(d, image, eraseWorks);
      r.Installed? && BankInfo(d1.config, Not(d.config.activeBank)) == h.(isValid := FIRMWARE_VALID_FLAG)
  {
  }

  /**
   * The size bound does not leave room for the header: a firmware of the
   * largest accepted size, 20480 bytes, makes a 20504-byte image, which
   * runs 24 bytes past bank A; received into bank A, the model's flash
   * then holds the image's last 24 bytes at the start of bank B.
   */
  lemma LargestImageOverruns(f: Flash, h: FirmwareInfo, image: seq<byte>)
    requires SizeInRange(h.firmwareSize) && h.firmwareSize == APP_BANK_SIZE
    requires |image| == FIRMWARE_INFO_SIZE + h.firmwareSize
    ensures APP_A_SECTOR_ADDR + |image| == APP_B_SECTOR_ADDR + 24
    ensures Within(APP_A_SECTOR_ADDR, |image|) && Within(APP_B_SECTOR_ADDR, 24)
    ensures Read(Receive(f, APP_A_SECTOR_ADDR, image), APP_B_SECTOR_ADDR, 24) == image[APP_BANK_SIZE..]
  {
    var r := Receive(f, APP_A_SECTOR_ADDR, image);
    ReadPart(r, APP_A_SECTOR_ADDR, |image|, APP_BANK_SIZE, 24);
  }

  // ---------------------------------------------------------------------------
  // The device

  /** `try_boot_firmware` on the device. */
  method TryBootFirmware(d: Device) returns (r: BootResult)
    modifies d
    ensures (r, d.State()) == TryBoot(old(d.State()), d.eraseWorks)
  {
    var valid := Verify(d.flash, d.config.activeBank);
    if valid {
      var launch := JumpToApp(d.flash, d.config.activeBank);
      if launch.Some? {
        return Jumped(launch.value);
      }
    }
    var backup := Not(d.config.activeBank);
    valid := Verify(d.flash, backup);
    if valid {
      d.config := d.config.(activeBank := backup);
      d.config := d.config.(bootCount := 0);
      var saved;
      saved, d.config := d.ConfigSave(d.config);
      var launch := JumpToApp(d.flash, d.config.activeBank);
      if launch.Some? {
        return Jumped(launch.value);
      }
    }
    return NoBootableBank;
  }

  /** `upgrade_process` on the device, with the session's image as a parameter. */
  method UpgradeProcess(d: Device, image: seq<byte>) returns (r: UpgradeResult)
    requires Within(BankAddr(Not(d.config.activeBank)), |image|)
    modifies d
    ensures (r, d.State()) == Upgrade(old(d.State()), image, d.eraseWorks)
  {
    var target := Not(d.config.activeBank);
    var addr := if target == 0 then APP_A_SECTOR_ADDR else APP_B_SECTOR_ADDR;
    var saved;
    d.config := d.config.(upgradeStatus := UPGRADE_STATUS_DOWNLOADING);
    saved, d.config := d.ConfigSave(d.config);

    d.flash := Receive(d.flash, addr, image);

    d.config := d.config.(upgradeStatus := UPGRADE_STATUS_VERIFYING);
    saved, d.config := d.ConfigSave(d.config);

    var ok, info := ParseHeader(d.flash, addr).0, ParseHeader(d.flash, addr).1;
    if !ok {
      d.config := d.config.(upgradeStatus := UPGRADE_STATUS_FAILED);
      saved, d.config := d.ConfigSave(d.config);
      return HeaderRejected;
    }
    var crc := Crc32(Read(d.flash, addr + FIRMWARE_INFO_SIZE, info.firmwareSize));
    if crc != info.firmwareCrc32 {
      d.config := d.config.(upgradeStatus := UPGRADE_STATUS_FAILED);
      saved, d.config := d.ConfigSave(d.config);
      return CrcMismatch;
    }

    d.config := d.config.(upgradeStatus := UPGRADE_STATUS_INSTALLING);
    if target == 0 {
      d.config := d.config.(bankA := info.(isValid := FIRMWARE_VALID_FLAG));
    } else {
      d.config := d.config.(bankB := info.(isValid := FIRMWARE_VALID_FLAG));
    }
    d.config := d.config.(activeBank := target, bootCount := 0, upgradeStatus := UPGRADE_STATUS_SUCCESS);
    saved, d.config := d.ConfigSave(d.config);
    return Installed(JumpToApp(d.flash, d.config.activeBank));
  }
}
