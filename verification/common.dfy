/*******************************************************************************
 *  Shared vocabulary of the kernel model: optional values, byte and 32-bit
 *  word ranges, page and sector sizes, and page rounding of addresses.
 *******************************************************************************/

module Common {

  /** A value that may be absent; stands for a C pointer that may be NULL. */
  datatype Option<+T> = None | Some(value: T)

  /** One byte of memory, disk or file contents. */
  type byte = x: int | 0 <= x < 256

  /** An `unsigned int` / `uint32_t` value, such as a FAT entry. */
  type u32 = x: int | 0 <= x < 0x1_0000_0000

  const U32_LIMIT: int := 0x1_0000_0000

  /** Bytes per virtual page (PGSIZE). */
  const PGSIZE: nat := 4096

  /** Bytes per disk sector (DISK_SECTOR_SIZE). */
  const DISK_SECTOR_SIZE: nat := 512

  /** Disk sectors per page-sized swap slot. */
  const SECTORS_PER_PAGE: nat := PGSIZE / DISK_SECTOR_SIZE

  /** A block device: sector number to sector contents. */
  type Disk = map<nat, seq<byte>>

  function Min(a: int, b: int): (m: int)
    ensures m <= a && m <= b
    ensures m == a || m == b
  {
    if a <= b then a else b
  }

  /** `n` zero bytes, as produced by calloc or memset(…, 0, n). */
  function Zeros(n: nat): (z: seq<byte>)
    ensures |z| == n
    ensures forall i :: 0 <= i < n ==> z[i] == 0
  {
    seq(n, _ => 0)
  }

  /** pg_round_down: the start of the page that contains `va`. */
  function PgRoundDown(va: nat): (r: nat)
    ensures r % PGSIZE == 0
    ensures r <= va < r + PGSIZE
  {
    va - va % PGSIZE
  }

  /** Two addresses share a page exactly when they round down to the same start. */
  lemma SamePageSameStart(a: nat, b: nat)
    ensures PgRoundDown(a) == PgRoundDown(b) <==> a / PGSIZE == b / PGSIZE
  {
  }

  /** Stepping one page forward moves the page start forward by one page. */
  lemma RoundDownNextPage(va: nat)
    ensures PgRoundDown(va + PGSIZE) == PgRoundDown(va) + PGSIZE
  {
  }

  /** Rounding a page-aligned address plus an in-page offset recovers the page. */
  lemma RoundDownOfAligned(base: nat, k: nat)
    requires base % PGSIZE == 0
    ensures PgRoundDown(base + k * PGSIZE) == base + k * PGSIZE
  {
  }
}
