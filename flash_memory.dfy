/**
 * The 64 KB of on-chip flash as the bootloader sees it: a byte string that
 * starts at 0x08000000. Reading copies bytes out (`mcu_flash_read` is a
 * `memcpy`), erasing sets whole 1 KB sectors to 0xFF, and programming
 * stores bytes. The flash driver's own failures are not modelled here;
 * where the source checks an erase result, the caller says whether the
 * erase worked.
 */
module FlashMemory {
  import opened Bytes
  import opened IapLayout

  const FLASH_SIZE: nat := FLASH_SECTOR_NUM * FLASH_SECTOR_SIZE

  type Flash = s: seq<byte> | |s| == FLASH_SIZE witness seq(FLASH_SIZE, _ => 0xFF)

  /** Whether `n` bytes from `addr` lie inside the flash. */
  predicate Within(addr: int, n: int)
  {
    FLASH_START_ADDR <= addr && 0 <= n && addr + n <= FLASH_START_ADDR + FLASH_SIZE
  }

  /** `mcu_flash_read`: `n` bytes from `addr`. */
  function Read(f: Flash, addr: int, n: nat): (r: seq<byte>)
    requires Within(addr, n)
    ensures |r| == n
  {
    f[addr - FLASH_START_ADDR..addr - FLASH_START_ADDR + n]
  }

  /** A 32-bit little-endian word read at `addr`, as a `uint32_t` dereference reads it. */
  function ReadWord(f: Flash, addr: int): u32
    requires Within(addr, 4)
  {
    ReadLE32(Read(f, addr, 4))
  }

  /** Programming stores `bytes` from `addr` on; nothing else changes. */
  function Program(f: Flash, addr: int, bytes: seq<byte>): (r: Flash)
    requires Within(addr, |bytes|)
    ensures Read(r, addr, |bytes|) == bytes
  {
    var o := addr - FLASH_START_ADDR;
    var r := f[..o] + bytes + f[o + |bytes|..];
    assert r[o..o + |bytes|] == bytes;
    r
  }

  /** Erasing `sectors` sectors from `addr` sets them to 0xFF. */
  function Erase(f: Flash, addr: int, sectors: nat): (r: Flash)
    requires Within(addr, sectors * FLASH_SECTOR_SIZE)
  {
    Program(f, addr, seq(sectors * FLASH_SECTOR_SIZE, _ => 0xFF))
  }

  /** A store to one range leaves every disjoint range as it was. */
  lemma ProgramElsewhere(f: Flash, addr: int, bytes: seq<byte>, other: int, n: nat)
    requires Within(addr, |bytes|) && Within(other, n)
    requires other + n <= addr || addr + |bytes| <= other
    ensures Read(Program(f, addr, bytes), other, n) == Read(f, other, n)
  {
    var o, p := addr - FLASH_START_ADDR, other - FLASH_START_ADDR;
    var r := Program(f, addr, bytes);
    forall i | p <= i < p + n
      ensures r[i] == f[i]
    {
      if i < o {
        assert r[i] == (f[..o] + bytes)[i];
      }
    }
    assert r[p..p + n] == f[p..p + n];
  }

  /** Part of a read is a read of that part. */
  lemma ReadPart(f: Flash, addr: int, n: nat, off: nat, m: nat)
    requires Within(addr, n) && off + m <= n
    ensures Within(addr + off, m)
    ensures Read(f, addr + off, m) == Read(f, addr, n)[off..off + m]
  {
    var o := addr - FLASH_START_ADDR;
    var whole := f[o..o + n];
    forall j | o + off <= j < o + off + m
      ensures whole[j - o] == f[j]
    {
    }
    assert whole[off..off + m] == f[o + off..o + off + m];
  }

  /** Two stores, the second starting where the first ends, are one store of both. */
  lemma ProgramAdjacent(f: Flash, addr: int, x: seq<byte>, y: seq<byte>)
    requires Within(addr, |x| + |y|)
    ensures Program(Program(f, addr, x), addr + |x|, y) == Program(f, addr, x + y)
  {
    var o := addr - FLASH_START_ADDR;
    var g := Program(f, addr, x);
    assert g == f[..o] + x + f[o + |x|..];
    assert g[..o + |x|] == f[..o] + x;
    assert g[o + |x| + |y|..] == f[o + |x| + |y|..];
    var r := Program(g, addr + |x|, y);
    assert r == g[..o + |x|] + y + g[o + |x| + |y|..];
    assert r == f[..o] + (x + y) + f[o + |x + y|..];
    assert Program(f, addr, x + y) == f[..o] + (x + y) + f[o + |x + y|..];
  }
}
