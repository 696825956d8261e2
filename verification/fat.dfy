/*******************************************************************************
 *  The FAT cluster table: boot-sector layout, table creation, the get/put
 *  primitives and first-fit cluster allocation (fat_create_chain).
 *
 *  The table is a sequence of 32-bit entries indexed by cluster number:
 *  0 marks a free cluster, EOCHAIN ends a chain, anything else is the next
 *  cluster of the chain.  Every table access requires an index inside the
 *  table, since the C code reads and writes the calloc'd array unchecked.
 *******************************************************************************/

module Fat {
  import opened Common

  /** Identifies a formatted disk in the boot sector. */
  const FAT_MAGIC: u32 := 0xEB3C9000
  /** End-of-chain marker. */
  const EOCHAIN: u32 := 0x0FFFFFFF
  const SECTORS_PER_CLUSTER: nat := 1
  const FAT_BOOT_SECTOR: nat := 0
  /** The cluster that holds the root directory. */
  const ROOT_DIR_CLUSTER: u32 := 1
  /** sizeof (cluster_t). */
  const CLUSTER_BYTES: nat := 4

  /** Sectors covered by one FAT sector: the clusters it indexes plus itself. */
  const SECTORS_PER_FAT_SECTOR: nat := DISK_SECTOR_SIZE / CLUSTER_BYTES * SECTORS_PER_CLUSTER + 1

  /** The on-disk boot record (struct fat_boot). */
  datatype FatBoot = FatBoot(
    magic: u32,
    sectorsPerCluster: u32,
    totalSectors: u32,
    fatStart: u32,
    fatSectors: u32,
    rootDirCluster: u32)

  /** The in-memory file-system descriptor (struct fat_fs), write lock left out. */
  datatype FatFs = FatFs(
    bs: FatBoot,
    fat: seq<u32>,
    fatLength: u32,
    dataStart: u32,
    lastClst: u32)

  /* ------------------------------------------------------------------------
   * Boot sector layout
   * ------------------------------------------------------------------------ */

  /**
   * fat_boot_create for a disk of `n` sectors.  The FAT gets the fewest
   * sectors k with k * 129 >= n: each FAT sector indexes 128 one-sector
   * clusters besides itself.  The subtraction n - 1 is unsigned, so an
   * empty disk wraps around to 2^32 - 1.
   */
  function FatBootCreate(n: u32): (bs: FatBoot)
    ensures bs.magic == FAT_MAGIC
    ensures bs.sectorsPerCluster == SECTORS_PER_CLUSTER
    ensures bs.totalSectors == n
    ensures bs.fatStart == 1
    ensures bs.rootDirCluster == ROOT_DIR_CLUSTER
    ensures n >= 1 ==> bs.fatSectors * SECTORS_PER_FAT_SECTOR >= n
    ensures n >= 1 ==> (bs.fatSectors - 1) * SECTORS_PER_FAT_SECTOR < n
    ensures n == 0 ==> bs.fatSectors == (U32_LIMIT - 1) / SECTORS_PER_FAT_SECTOR + 1
  {
    var fatSectors := (n - 1) % U32_LIMIT / SECTORS_PER_FAT_SECTOR + 1;
    FatBoot(FAT_MAGIC, SECTORS_PER_CLUSTER, n, 1, fatSectors, ROOT_DIR_CLUSTER)
  }

  /**
   * fat_fs_init: the table length is the FAT's sector count divided by
   * sizeof (cluster_t), and both the data start and the last cluster hint
   * are the FAT's first sector.
   */
  function FatFsInit(fs: FatFs): (r: FatFs)
    ensures r.bs == fs.bs && r.fat == fs.fat
    ensures r.fatLength * CLUSTER_BYTES <= fs.bs.fatSectors < (r.fatLength + 1) * CLUSTER_BYTES
    ensures r.dataStart == fs.bs.fatStart && r.lastClst == fs.bs.fatStart
  {
    fs.(fatLength := fs.bs.fatSectors / CLUSTER_BYTES,
        dataStart := fs.bs.fatStart,
        lastClst := fs.bs.fatStart)
  }

  /** The FAT sectors reserved by fat_fs_init always have room for the table. */
  lemma FatSectorsHoldTable(fs: FatFs)
    ensures FatFsInit(fs).fatLength * CLUSTER_BYTES <= fs.bs.fatSectors * DISK_SECTOR_SIZE
  {
  }

  /* ------------------------------------------------------------------------
   * Entry access
   * ------------------------------------------------------------------------ */

  /** fat_get: the entry of cluster `clst`. */
  function FatGet(fat: seq<u32>, clst: u32): u32
    requires clst < |fat|
  {
    fat[clst]
  }

  /** fat_put: overwrite the entry of cluster `clst` and nothing else. */
  function FatPut(fat: seq<u32>, clst: u32, val: u32): (r: seq<u32>)
    requires clst < |fat|
    ensures |r| == |fat|
    ensures r[clst] == val
    ensures forall j :: 0 <= j < |fat| && j != clst ==> r[j] == fat[j]
  {
    fat[clst := val]
  }

  /** Reading after writing sees the written value; other entries are as before. */
  lemma GetAfterPut(fat: seq<u32>, c: u32, v: u32, d: u32)
    requires c < |fat| && d < |fat|
    ensures FatGet(FatPut(fat, c, v), d) == if c == d then v else FatGet(fat, d)
  {
  }

  /** cluster_to_sector: one-sector clusters map onto sectors unchanged. */
  function ClusterToSector(clst: u32): (s: nat)
    ensures s == clst as nat
  {
    clst
  }

  /* ------------------------------------------------------------------------
   * Table creation
   * ------------------------------------------------------------------------ */

  /** The table length fat_create allocates for an `n`-sector disk. */
  function CreatedLength(n: u32): u32 {
    FatFsInit(FatFs(FatBootCreate(n), [], 0, 0, 0)).fatLength
  }

  /**
   * fat_create: lay out a fresh boot record, allocate an all-free table,
   * end the root directory's chain at once and zero the root directory's
   * sector on disk.  The root cluster must lie inside the table, because
   * fat_put does not check its index.
   */
  function FatCreate(n: u32, disk: Disk): (r: (FatFs, Disk))
    requires ROOT_DIR_CLUSTER < CreatedLength(n)
    ensures r.0.bs == FatBootCreate(n)
    ensures |r.0.fat| == r.0.fatLength as nat == CreatedLength(n) as nat
    ensures r.0.fat[ROOT_DIR_CLUSTER] == EOCHAIN
    ensures forall j :: 0 <= j < |r.0.fat| && j != ROOT_DIR_CLUSTER ==> r.0.fat[j] == 0
    ensures r.1.Keys == disk.Keys + {ClusterToSector(ROOT_DIR_CLUSTER)}
    ensures r.1[ClusterToSector(ROOT_DIR_CLUSTER)] == Zeros(DISK_SECTOR_SIZE)
    ensures forall s :: s in disk && s != ClusterToSector(ROOT_DIR_CLUSTER) ==> r.1[s] == disk[s]
  {
    var fs := FatFsInit(FatFs(FatBootCreate(n), [], 0, 0, 0));
    var table := seq(fs.fatLength, _ => 0);
    var fat := FatPut(table, ROOT_DIR_CLUSTER, EOCHAIN);
    (fs.(fat := fat), disk[ClusterToSector(ROOT_DIR_CLUSTER) := Zeros(DISK_SECTOR_SIZE)])
  }

  /* ------------------------------------------------------------------------
   * First-fit allocation
   * ------------------------------------------------------------------------ */

  /** `i` is the lowest free cluster at or after `start`. */
  predicate IsFirstFree(fat: seq<u32>, start: nat, i: nat) {
    start <= i < |fat| && fat[i] == 0 && forall j :: start <= j < i ==> fat[j] != 0
  }

  /** No cluster at or after `start` is free. */
  predicate NoneFree(fat: seq<u32>, start: nat) {
    forall j :: start <= j < |fat| ==> fat[j] != 0
  }

  /** Reference definition of the scan: the first free cluster at or after `i`. */
  function FirstFree(fat: seq<u32>, i: nat): (r: Option<nat>)
    decreases |fat| - i
    ensures r.Some? ==> IsFirstFree(fat, i, r.value)
    ensures r.None? ==> NoneFree(fat, i)
  {
    if i >= |fat| then None
    else if fat[i] == 0 then Some(i)
    else FirstFree(fat, i + 1)
  }

  /** The number of free clusters in [lo, |fat|). */
  function CountFree(fat: seq<u32>, lo: nat): nat
    decreases |fat| - lo
  {
    if lo >= |fat| then 0
    else (if fat[lo] == 0 then 1 else 0) + CountFree(fat, lo + 1)
  }

  /** The scan fails exactly when no cluster in its range is free. */
  lemma {:induction false} NoneFreeIffCountZero(fat: seq<u32>, lo: nat)
    decreases |fat| - lo
    ensures NoneFree(fat, lo) <==> CountFree(fat, lo) == 0
  {
    if lo < |fat| {
      NoneFreeIffCountZero(fat, lo + 1);
    }
  }

  /** Marking one free cluster as used lowers the free count by exactly one. */
  lemma {:induction false} AllocationConsumesOne(fat: seq<u32>, lo: nat, i: nat, v: u32)
    requires lo <= i < |fat| && fat[i] == 0 && v != 0
    decreases |fat| - lo
    ensures CountFree(fat[i := v], lo) == CountFree(fat, lo) - 1
  {
    if lo < i {
      AllocationConsumesOne(fat, lo + 1, i, v);
    } else {
      CountFreeIgnoresBefore(fat, lo + 1, i, v);
    }
  }

  /** Writing an entry below `lo` does not change the count from `lo` on. */
  lemma {:induction false} CountFreeIgnoresBefore(fat: seq<u32>, lo: nat, i: nat, v: u32)
    requires i < lo && i < |fat|
    decreases |fat| - lo
    ensures CountFree(fat[i := v], lo) == CountFree(fat, lo)
  {
    if lo < |fat| {
      CountFreeIgnoresBefore(fat, lo + 1, i, v);
    }
  }

  /**
   * fat_create_chain with the scan bounded by the table's end.  With
   * clst == 0 the first free cluster at or after `start` (the boot
   * record's fat_start) becomes a one-cluster chain; otherwise it is
   * spliced in after `clst` and inherits clst's old successor.  The
   * result 0 reports that no cluster is free; the table is then unchanged.
   */
  method CreateChain(fat: seq<u32>, start: u32, clst: u32) returns (r: u32, fat': seq<u32>)
    requires |fat| < U32_LIMIT
    requires clst != 0 ==> clst < |fat|
    ensures |fat'| == |fat|
    ensures FirstFree(fat, start).None? ==> r == 0 && fat' == fat
    ensures FirstFree(fat, start).Some? ==> r as nat == FirstFree(fat, start).value
    ensures FirstFree(fat, start).Some? && clst == 0 ==>
      fat'[r] == EOCHAIN && forall j :: 0 <= j < |fat| && j != r ==> fat'[j] == fat[j]
    ensures FirstFree(fat, start).Some? && clst != 0 ==>
      && fat'[r] == fat[clst]
      && (r != clst ==> fat'[clst] == r)
      && forall j :: 0 <= j < |fat| && j != r && j != clst ==> fat'[j] == fat[j]
  {
    var i: nat := start;
    while i < |fat|
      invariant start <= i
      invariant FirstFree(fat, start) == FirstFree(fat, i)
      decreases |fat| - i
    {
      if fat[i] == 0 {
        if clst == 0 {
          fat' := FatPut(fat, i, EOCHAIN);
        } else {
          var temp := FatGet(fat, clst);
          var linked := FatPut(fat, clst, i);
          fat' := FatPut(linked, i, temp);
        }
        r := i;
        return;
      }
      i := i + 1;
    }
    r, fat' := 0, fat;
  }

  /** With fat_start = 1 a successful allocation can never be confused with failure. */
  lemma SuccessIsNonzero(fat: seq<u32>, start: nat)
    requires start >= 1
    requires FirstFree(fat, start).Some?
    ensures FirstFree(fat, start).value != 0
  {
  }

  /** Allocation succeeds exactly while some cluster in range is free. */
  lemma {:induction false} ScanFindsIffFree(fat: seq<u32>, start: nat)
    ensures FirstFree(fat, start).Some? <==> CountFree(fat, start) > 0
  {
    NoneFreeIffCountZero(fat, start);
  }

  /** Starting a new chain uses exactly one free cluster of the scanned range. */
  lemma {:induction false} NewChainUsesOneCluster(fat: seq<u32>, start: nat)
    requires FirstFree(fat, start).Some?
    ensures CountFree(fat[FirstFree(fat, start).value := EOCHAIN], start) == CountFree(fat, start) - 1
  {
    AllocationConsumesOne(fat, start, FirstFree(fat, start).value, EOCHAIN);
  }

  /* ------------------------------------------------------------------------
   * The scan as written
   * ------------------------------------------------------------------------ */

  /** Outcome of the scan with the loop bound `i <= fat_length`. */
  datatype ScanAsWritten = Found(index: nat) | ReadPastEnd(index: nat) | Exhausted

  /**
   * The source's scan over [i, |fat|]: the index |fat| is one past the
   * calloc'd table, so reaching it reads outside the array.
   */
  function ScanFromAsWritten(fat: seq<u32>, i: nat): (r: ScanAsWritten)
    decreases |fat| + 1 - i
    ensures r.ReadPastEnd? ==> r.index == |fat|
    ensures r.Found? ==> IsFirstFree(fat, i, r.index)
    ensures r.Exhausted? <==> i > |fat|
    ensures i <= |fat| ==> (r.ReadPastEnd? <==> NoneFree(fat, i))
  {
    if i > |fat| then Exhausted
    else if i == |fat| then ReadPastEnd(i)
    else if fat[i] == 0 then Found(i)
    else ScanFromAsWritten(fat, i + 1)
  }

  /**
   * As written, a scan that starts inside the table and finds no free
   * cluster never reports exhaustion: it always reads the entry one past
   * the end, and only a zero there ends the loop.
   */
  lemma {:induction false} AsWrittenReadsPastEnd(fat: seq<u32>, i: nat)
    requires i <= |fat|
    requires FirstFree(fat, i).None?
    decreases |fat| - i
    ensures ScanFromAsWritten(fat, i) == ReadPastEnd(|fat|)
  {
    if i < |fat| {
      AsWrittenReadsPastEnd(fat, i + 1);
    }
  }

  /** A full two-cluster table: the source's scan touches fat[2]. */
  lemma FullTableReadsPastEnd()
    ensures ScanFromAsWritten([EOCHAIN, EOCHAIN], 1) == ReadPastEnd(2)
    ensures FirstFree([EOCHAIN, EOCHAIN], 1).None?
  {
  }
}
