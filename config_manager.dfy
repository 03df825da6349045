/**
 * The configuration manager (`config_manager.c`): saving the CRC-protected
 * configuration record, the factory defaults, recording a valid firmware
 * in a bank, bringing up `g_config` at start-up, and the boot counter that
 * falls back to the other bank after too many boots.
 *
 * The device is the flash and the global `g_config`; whether the flash
 * driver manages to erase is a fixed property of the device. Each
 * operation is first a pure function of the device state and then a
 * method of class `Device` proved to compute it.
 */
module ConfigManager {
  import opened Bytes
  import opened Crc
  import opened IapLayout
  import opened FlashMemory
  import opened FirmwareVerify

  /** `CONFIG_AREA_SIZE / FLASH_SECTOR_SIZE`: the configuration area is two sectors. */
  const CONFIG_SECTORS: nat := CONFIG_AREA_SIZE / FLASH_SECTOR_SIZE

  /** The flash and `g_config`. */
  datatype Dev = Dev(flash: Flash, config: SystemConfig)

  /** C's logical not on a bank number: 0 becomes 1, anything else 0. */
  function Not(bank: byte): (r: byte)
    ensures r == 0 || r == 1
    ensures (r == 0) <==> (bank != 0)
  {
    if bank == 0 then 1 else 0
  }

  // ---------------------------------------------------------------------------
  // Saving and reading back

  /** The record with its `config_crc32` computed over its other 56 bytes. */
  function Stamped(c: SystemConfig): (r: SystemConfig)
    ensures ConfigBody(r) == ConfigBody(c)
  {
    c.(configCrc32 := Crc32(ConfigBody(c)))
  }

  /**
   * `config_save`'s effect on the flash: the configuration area is erased
   * (when that fails nothing more happens and the result is 0) and the
   * stamped record is programmed at its start.
   */
  function Save(f: Flash, c: SystemConfig, eraseWorks: bool): (bool, Flash)
  {
    if !eraseWorks then (false, f)
    else (true, Program(Erase(f, CONFIG_AREA_ADDR, CONFIG_SECTORS), CONFIG_AREA_ADDR, EncodeConfig(Stamped(c))))
  }

  /**
   * After a successful save, `config_read` returns the stamped record, and
   * accepts it exactly when the record carries the configuration magic.
   */
  lemma ReadAfterSave(f: Flash, c: SystemConfig)
    ensures var g := Save(f, c, true).1;
      ConfigRead(g).1 == Stamped(c)
      && (ConfigRead(g).0 <==> c.magic == CONFIG_MAGIC)
  {
    var g := Save(f, c, true).1;
    var raw := Read(g, CONFIG_AREA_ADDR, SYSTEM_CONFIG_SIZE);
    assert raw == EncodeConfig(Stamped(c));
    DecodeEncodeConfig(Stamped(c));
    assert raw[..SYSTEM_CONFIG_SIZE - 4] == ConfigBody(Stamped(c));
  }

  /** A save touches nothing outside the configuration area: both application banks keep their bytes. */
  lemma SaveKeepsOtherAreas(f: Flash, c: SystemConfig, eraseWorks: bool, addr: int, n: nat)
    requires Within(addr, n)
    requires addr >= CONFIG_AREA_ADDR + CONFIG_AREA_SIZE || addr + n <= CONFIG_AREA_ADDR
    ensures Read(Save(f, c, eraseWorks).1, addr, n) == Read(f, addr, n)
  {
    if eraseWorks {
      var e := Erase(f, CONFIG_AREA_ADDR, CONFIG_SECTORS);
      ProgramElsewhere(f, CONFIG_AREA_ADDR, seq(CONFIG_SECTORS * FLASH_SECTOR_SIZE, _ => 0xFF), addr, n);
      ProgramElsewhere(e, CONFIG_AREA_ADDR, EncodeConfig(Stamped(c)), addr, n);
    }
  }

  // ---------------------------------------------------------------------------
  // Defaults

  function EmptyInfo(): FirmwareInfo
  {
    FirmwareInfo(FIRMWARE_MAGIC, 0, 0, 0, 0, 0, 0, 0, 0, [0, 0, 0])
  }

  /** `config_init_default`'s record before it is saved. */
  function Default(): SystemConfig
  {
    SystemConfig(CONFIG_MAGIC, 1, UPGRADE_STATUS_IDLE, 0, 3, EmptyInfo(), EmptyInfo(), 0)
  }

  /**
   * The defaults: a valid configuration magic, bank B active so that the
   * first upgrade goes to A, status idle, no boots counted, three retries,
   * and both banks marked with the firmware magic but not valid.
   */
  lemma DefaultFields()
    ensures var d := Default();
      d.magic == 0xA5A5_A5A5 && d.activeBank == 1 && d.upgradeStatus == 0
      && d.bootCount == 0 && d.maxBootRetry == 3
      && d.bankA == d.bankB && d.bankA.magic == 0x5AA5_F00F && d.bankA.isValid == 0
      && d.bankA.firmwareSize == 0 && d.bankA.firmwareCrc32 == 0
  {
  }

  /** `config_init_default` on a record: the defaults are saved and, stamped, become the record. */
  function InitDefault(f: Flash, eraseWorks: bool): (Flash, SystemConfig)
  {
    (Save(f, Default(), eraseWorks).1, Stamped(Default()))
  }

  // ---------------------------------------------------------------------------
  // Operations

  /** The stored record with `info` in the chosen bank (0 for A, any other value for B), marked valid. */
  function WithBank(c: SystemConfig, bank: byte, info: FirmwareInfo): SystemConfig
  {
    if bank == 0 then c.(bankA := info.(isValid := FIRMWARE_VALID_FLAG))
    else c.(bankB := info.(isValid := FIRMWARE_VALID_FLAG))
  }

  /**
   * `config_mark_firmware_valid`: the stored record (the defaults, when it
   * is not valid and they can be saved) gets `info` in the chosen bank and
   * is saved; the result is 0 when no valid record can be had or the save
   * fails.
   */
  function MarkValid(f: Flash, bank: byte, info: FirmwareInfo, eraseWorks: bool): (bool, Flash)
  {
    var (ok, c) := ConfigRead(f);
    if ok then Save(f, WithBank(c, bank, info), eraseWorks)
    else
      var f1 := InitDefault(f, eraseWorks).0;
      var (ok1, c1) := ConfigRead(f1);
      if !ok1 then (false, f1) else Save(f1, WithBank(c1, bank, info), eraseWorks)
  }

  /** `init_system_config`: keep a valid stored record, else install the defaults and read them back. */
  function InitSystemConfig(d: Dev, eraseWorks: bool): (bool, Dev)
  {
    var (ok, c) := ConfigRead(d.flash);
    if ok then (true, d.(config := c))
    else
      var f1 := InitDefault(d.flash, eraseWorks).0;
      var (ok1, c1) := ConfigRead(f1);
      (ok1, Dev(f1, c1))
  }

  /** `has_valid_firmware`: the active bank or the other one passes verification. */
  predicate HasValidFirmware(d: Dev)
  {
    Verify(d.flash, d.config.activeBank) || Verify(d.flash, Not(d.config.activeBank))
  }

  /**
   * The counter update of `handle_boot_counter`: `boot_count` grows by one
   * in eight bits; past `max_boot_retry` the other bank becomes active and
   * the count restarts.
   */
  function BootCounted(c: SystemConfig): SystemConfig
  {
    var n := (c.bootCount + 1) % 0x100;
    if n > c.maxBootRetry then c.(activeBank := Not(c.activeBank), bootCount := 0)
    else c.(bootCount := n)
  }

  /** `handle_boot_counter`: nothing without a valid firmware; otherwise count the boot and save. */
  function HandleBootCounter(d: Dev, eraseWorks: bool): (bool, Dev)
  {
    if !HasValidFirmware(d) then (false, d)
    else
      var c := BootCounted(d.config);
      (true, Dev(Save(d.flash, c, eraseWorks).1, Stamped(c)))
  }

  // ---------------------------------------------------------------------------
  // Properties

  /**
   * Marking a bank valid, with a working erase, leaves a valid stored
   * record whose chosen bank holds `info` with the valid flag set and whose
   * other bank is what the stored record (or, when that was not valid, the
   * defaults) held.
   */
  lemma MarkValidStores(f: Flash, bank: byte, info: FirmwareInfo)
    ensures var (ok, g) := MarkValid(f, bank, info, true);
      var before := if ConfigRead(f).0 then ConfigRead(f).1 else Stamped(Default());
      ok && ConfigRead(g).0
      && BankInfo(ConfigRead(g).1, bank) == info.(isValid := FIRMWARE_VALID_FLAG)
      && BankInfo(ConfigRead(g).1, Not(bank)) == BankInfo(before, Not(bank))
      && ConfigRead(g).1.activeBank == before.activeBank
  {
    var (ok, c) := ConfigRead(f);
    if ok {
      ReadAfterSave(f, WithBank(c, bank, info));
    } else {
      var f1 := InitDefault(f, true).0;
      ReadAfterSave(f, Default());
      ReadAfterSave(f1, WithBank(ConfigRead(f1).1, bank, info));
    }
  }

  /** Without a working erase nothing can be marked valid, and a record that was not valid stays so. */
  lemma MarkValidNeedsErase(f: Flash, bank: byte, info: FirmwareInfo)
    ensures var (ok, g) := MarkValid(f, bank, info, false);
      !ok && g == f
  {
  }

  /**
   * At start-up a valid stored record is taken as it is, without writing;
   * an invalid one is replaced by the stamped defaults when the erase works
   * (result 1), and otherwise the result is 0.
   */
  lemma InitSystemConfigOutcome(d: Dev, eraseWorks: bool)
    ensures var (ok, d1) := InitSystemConfig(d, eraseWorks);
      (ConfigRead(d.flash).0 ==> ok && d1 == d.(config := ConfigRead(d.flash).1))
      && (!ConfigRead(d.flash).0 && eraseWorks ==>
            ok && d1.config == Stamped(Default()) && ConfigRead(d1.flash) == (true, Stamped(Default())))
      && (!ConfigRead(d.flash).0 && !eraseWorks ==> !ok && d1.flash == d.flash)
  {
    if !ConfigRead(d.flash).0 && eraseWorks {
      ReadAfterSave(d.flash, Default());
    }
  }

  /** With no valid firmware in either bank the counter is left alone and the result is 0. */
  lemma NoFirmwareNoCount(d: Dev, eraseWorks: bool)
    requires !Verify(d.flash, 0) && !Verify(d.flash, 1)
    ensures HandleBootCounter(d, eraseWorks) == (false, d)
  {
    if d.config.activeBank != 0 {
      VerifyAnyOtherBankIsB(d.flash, d.config.activeBank);
    }
  }

  /**
   * Starting from a fresh count with three retries allowed, the first three
   * boots count 1, 2, 3 on the same bank and the fourth switches to the
   * other bank with the count back at 0.
   */
  lemma FourthBootSwitches(c: SystemConfig)
    requires c.bootCount == 0 && c.maxBootRetry == 3
    ensures var c1 := BootCounted(c); var c2 := BootCounted(c1); var c3 := BootCounted(c2);
      var c4 := BootCounted(c3);
      c1.bootCount == 1 && c2.bootCount == 2 && c3.bootCount == 3
      && c1.activeBank == c2.activeBank == c3.activeBank == c.activeBank
      && c4.bootCount == 0 && c4.activeBank == Not(c.activeBank)
      && c4.bankA == c.bankA && c4.bankB == c.bankB
  {
  }

  /**
   * The count is eight bits wide: with `max_boot_retry` at 255 the count
   * wraps from 255 to 0 instead of exceeding it, so the bank never changes.
   */
  lemma CounterWrapsAtMaximum(c: SystemConfig)
    requires c.maxBootRetry == 255
    ensures BootCounted(c).activeBank == c.activeBank
    ensures BootCounted(c).bootCount == (c.bootCount + 1) % 256
  {
  }

  /**
   * A count within the retry limit stays within it, and the bank changes
   * exactly on the boot that reaches one past the limit, which a limit of
   * 255 never allows.
   */
  lemma CounterBounded(c: SystemConfig)
    requires c.bootCount <= c.maxBootRetry
    ensures BootCounted(c).bootCount <= c.maxBootRetry
    ensures BootCounted(c).activeBank != c.activeBank <==> c.bootCount == c.maxBootRetry < 255
  {
  }

  /**
   * A counted boot is saved: with a working erase, the stored record is
   * the new `g_config` and is valid when `g_config` was; the banks' images
   * are untouched.
   */
  lemma BootCountSaved(d: Dev)
    requires HasValidFirmware(d)
    ensures var (ok, d1) := HandleBootCounter(d, true);
      ok && ConfigRead(d1.flash).1 == d1.config
      && (ConfigRead(d1.flash).0 <==> d.config.magic == CONFIG_MAGIC)
      && Read(d1.flash, APP_A_SECTOR_ADDR, 2 * APP_BANK_SIZE) == Read(d.flash, APP_A_SECTOR_ADDR, 2 * APP_BANK_SIZE)
  {
    ReadAfterSave(d.flash, BootCounted(d.config));
    SaveKeepsOtherAreas(d.flash, BootCounted(d.config), true, APP_A_SECTOR_ADDR, 2 * APP_BANK_SIZE);
  }

  // ---------------------------------------------------------------------------
  // The device

  class Device {
    var flash: Flash
    var config: SystemConfig
    const eraseWorks: bool

    function State(): Dev
      reads this
    {
      Dev(flash, config)
    }

    constructor(flash: Flash, config: SystemConfig, eraseWorks: bool)
      ensures State() == Dev(flash, config) && this.eraseWorks == eraseWorks
    {
      this.flash := flash;
      this.config := config;
      this.eraseWorks := eraseWorks;
    }

    /** `config_read`: the stored record and whether it is valid. */
    method ConfigReadFrom() returns (ok: bool, c: SystemConfig)
      ensures (ok, c) == ConfigRead(flash)
    {
      var raw := flash[CONFIG_AREA_ADDR - FLASH_START_ADDR..CONFIG_AREA_ADDR - FLASH_START_ADDR + SYSTEM_CONFIG_SIZE];
      c := DecodeConfig(raw);
      ok := false;
      if c.magic != CONFIG_MAGIC {
        return;
      }
      var crc := Crc32(raw[..SYSTEM_CONFIG_SIZE - 4]);
      if crc != c.configCrc32 {
        return;
      }
      ok := true;
    }

    /**
     * `config_save`: the record's CRC field is recomputed (the caller's copy
     * changes too), the area erased and the record programmed.
     */
    method ConfigSave(c: SystemConfig) returns (ok: bool, stamped: SystemConfig)
      modifies this
      ensures stamped == Stamped(c)
      ensures (ok, flash) == Save(old(flash), c, eraseWorks)
      ensures config == old(config)
    {
      stamped := c.(configCrc32 := Crc32(ConfigBody(c)));
      if !eraseWorks {
        return false, stamped;
      }
      flash := Erase(flash, CONFIG_AREA_ADDR, CONFIG_SECTORS);
      flash := Program(flash, CONFIG_AREA_ADDR, EncodeConfig(stamped));
      ok := true;
    }

    /** `config_init_default`: the record becomes the defaults, which are saved (and stamped). */
    method ConfigInitDefault() returns (c: SystemConfig)
      modifies this
      ensures (flash, c) == InitDefault(old(flash), eraseWorks)
      ensures config == old(config)
    {
      c := Default();
      var saved, stamped := ConfigSave(c);
      c := stamped;
    }

    /** `config_mark_firmware_valid`, on a local copy of the stored record. */
    method MarkFirmwareValid(bank: byte, info: FirmwareInfo) returns (ok: bool)
      modifies this
      ensures (ok, flash) == MarkValid(old(flash), bank, info, eraseWorks)
      ensures config == old(config)
    {
      var valid, c := ConfigReadFrom();
      if !valid {
        c := ConfigInitDefault();
        valid, c := ConfigReadFrom();
        if !valid {
          return false;
        }
      }
      if bank == 0 {
        c := c.(bankA := info);
        c := c.(bankA := c.bankA.(isValid := FIRMWARE_VALID_FLAG));
      } else {
        c := c.(bankB := info);
        c := c.(bankB := c.bankB.(isValid := FIRMWARE_VALID_FLAG));
      }
      ok, c := ConfigSave(c);
    }

    /** `init_system_config`: read `g_config`, installing the defaults when it is not valid. */
    method InitSystemConfigNow() returns (ok: bool)
      modifies this
      ensures (ok, State()) == InitSystemConfig(old(State()), eraseWorks)
    {
      var valid;
      valid, config := ConfigReadFrom();
      if !valid {
        config := ConfigInitDefault();
        valid, config := ConfigReadFrom();
        if !valid {
          return false;
        }
      }
      return true;
    }

    /** `has_valid_firmware`. */
    method HasValidFirmwareNow() returns (r: bool)
      ensures r == HasValidFirmware(State())
    {
      r := Verify(flash, config.activeBank) || Verify(flash, Not(config.activeBank));
    }

    /** `handle_boot_counter`. */
    method HandleBootCounterNow() returns (ok: bool)
      modifies this
      ensures (ok, State()) == HandleBootCounter(old(State()), eraseWorks)
    {
      var valid := HasValidFirmwareNow();
      if !valid {
        return false;
      }
      config := config.(bootCount := (config.bootCount + 1) % 0x100);
      var saved;
      if config.bootCount > config.maxBootRetry {
        config := config.(activeBank := Not(config.activeBank));
        config := config.(bootCount := 0);
        saved, config := ConfigSave(config);
      } else {
        saved, config := ConfigSave(config);
      }
      return true;
    }
  }
}
