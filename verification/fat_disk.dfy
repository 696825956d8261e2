/*******************************************************************************
 *  Moving the FAT between memory and disk: fat_init reads the boot record,
 *  fat_close writes the boot record and the table, fat_open reads the
 *  table back.  The table travels as its little-endian byte image, one
 *  512-byte sector at a time; the last, partial sector is padded with
 *  zeros on the way out and only its meaningful prefix is copied back in.
 *******************************************************************************/

module FatDisk {
  import opened Common
  import opened Fat

  /* ------------------------------------------------------------------------
   * Byte images
   * ------------------------------------------------------------------------ */

  /** The four little-endian bytes of a 32-bit word. */
  function EncodeWord(v: u32): (b: seq<byte>)
    ensures |b| == 4
  {
    [v % 256, v / 256 % 256, v / 65536 % 256, v / 16777216]
  }

  function DecodeWord(b: seq<byte>): u32
    requires |b| == 4
  {
    var b0: int, b1: int, b2: int, b3: int := b[0], b[1], b[2], b[3];
    b0 + 256 * b1 + 65536 * b2 + 16777216 * b3
  }

  lemma DecodeEncodeWord(v: u32)
    ensures DecodeWord(EncodeWord(v)) == v
  {
  }

  /** The in-memory bytes of the table: entry i occupies bytes 4i .. 4i+3. */
  function EncodeTable(fat: seq<u32>): (bytes: seq<byte>)
    ensures |bytes| == CLUSTER_BYTES * |fat|
  {
    seq(4 * |fat|, p requires 0 <= p < 4 * |fat| => EncodeWord(fat[p / 4])[p % 4])
  }

  /** Entry i's word sits, least significant byte first, at bytes 4i .. 4i+3. */
  lemma EncodeTableLayout(fat: seq<u32>, i: nat)
    requires i < |fat|
    ensures EncodeTable(fat)[4 * i .. 4 * i + 4] == EncodeWord(fat[i])
  {
    var bytes := EncodeTable(fat);
    forall k | 0 <= k < 4
      ensures bytes[4 * i + k] == EncodeWord(fat[i])[k]
    {
      WordPosition(i, k);
    }
  }

  lemma WordPosition(i: nat, k: nat)
    requires k < 4
    ensures (4 * i + k) / 4 == i && (4 * i + k) % 4 == k
  {
  }

  /** Reading the table's bytes as consecutive 32-bit words. */
  function DecodeTable(bytes: seq<byte>): (fat: seq<u32>)
    ensures |fat| == |bytes| / 4
  {
    seq(|bytes| / 4, i requires 0 <= i < |bytes| / 4 => DecodeWord(bytes[4 * i .. 4 * i + 4]))
  }

  lemma DecodeEncodeTable(fat: seq<u32>)
    ensures DecodeTable(EncodeTable(fat)) == fat
  {
    var bytes := EncodeTable(fat);
    var back := DecodeTable(bytes);
    forall i | 0 <= i < |fat|
      ensures back[i] == fat[i]
    {
      EncodeTableLayout(fat, i);
      DecodeEncodeWord(fat[i]);
    }
  }

  const BOOT_RECORD_BYTES: nat := 24

  /** struct fat_boot as laid out in memory: six words in field order. */
  function EncodeBoot(bs: FatBoot): (b: seq<byte>)
    ensures |b| == BOOT_RECORD_BYTES
  {
    EncodeWord(bs.magic) + EncodeWord(bs.sectorsPerCluster) + EncodeWord(bs.totalSectors)
      + EncodeWord(bs.fatStart) + EncodeWord(bs.fatSectors) + EncodeWord(bs.rootDirCluster)
  }

  function DecodeBoot(b: seq<byte>): FatBoot
    requires |b| >= BOOT_RECORD_BYTES
  {
    FatBoot(DecodeWord(b[0..4]), DecodeWord(b[4..8]), DecodeWord(b[8..12]),
            DecodeWord(b[12..16]), DecodeWord(b[16..20]), DecodeWord(b[20..24]))
  }

  /** The boot sector fat_close writes: the record, zero-padded to a sector. */
  function BootSectorImage(bs: FatBoot): (s: seq<byte>)
    ensures |s| == DISK_SECTOR_SIZE
    ensures DecodeBoot(s) == bs
  {
    var s := EncodeBoot(bs) + Zeros(DISK_SECTOR_SIZE - BOOT_RECORD_BYTES);
    assert s[0..4] == EncodeWord(bs.magic);
    assert s[4..8] == EncodeWord(bs.sectorsPerCluster);
    assert s[8..12] == EncodeWord(bs.totalSectors);
    assert s[12..16] == EncodeWord(bs.fatStart);
    assert s[16..20] == EncodeWord(bs.fatSectors);
    assert s[20..24] == EncodeWord(bs.rootDirCluster);
    DecodeEncodeWord(bs.magic);
    DecodeEncodeWord(bs.sectorsPerCluster);
    DecodeEncodeWord(bs.totalSectors);
    DecodeEncodeWord(bs.fatStart);
    DecodeEncodeWord(bs.fatSectors);
    DecodeEncodeWord(bs.rootDirCluster);
    s
  }

  /* ------------------------------------------------------------------------
   * Sector images
   * ------------------------------------------------------------------------ */

  /** A sector's worth of bytes is present at `s`. */
  predicate HasSector(disk: Disk, s: nat) {
    s in disk && |disk[s]| == DISK_SECTOR_SIZE
  }

  /** Every sector reserved for the FAT is present. */
  predicate FatSectorsPresent(disk: Disk, bs: FatBoot) {
    forall s :: bs.fatStart <= s < bs.fatStart + bs.fatSectors ==> HasSector(disk, s)
  }

  /** Byte `p` of the table lives in FAT sector p / 512 at position p % 512. */
  lemma SectorOfByte(p: nat, sectors: nat)
    requires p < sectors * DISK_SECTOR_SIZE
    ensures p / DISK_SECTOR_SIZE < sectors
    ensures (p / DISK_SECTOR_SIZE) * DISK_SECTOR_SIZE + p % DISK_SECTOR_SIZE == p
  {
  }

  /**
   * What the k-th FAT sector receives from an image of the table: a full
   * slice while a whole sector's worth remains, otherwise the remaining
   * bytes (possibly none) followed by zeros.
   */
  function SectorImage(bytes: seq<byte>, k: nat): (s: seq<byte>)
    ensures |s| == DISK_SECTOR_SIZE
  {
    var done := Min(k * DISK_SECTOR_SIZE, |bytes|);
    if |bytes| - done >= DISK_SECTOR_SIZE then
      bytes[done .. done + DISK_SECTOR_SIZE]
    else
      bytes[done..] + Zeros(DISK_SECTOR_SIZE - (|bytes| - done))
  }

  /** Byte j of the k-th image is table byte 512k + j, or 0 past the table's end. */
  lemma SectorImageByte(bytes: seq<byte>, k: nat, j: nat)
    requires j < DISK_SECTOR_SIZE
    ensures SectorImage(bytes, k)[j] == if k * DISK_SECTOR_SIZE + j < |bytes| then bytes[k * DISK_SECTOR_SIZE + j] else 0
  {
  }

  /**
   * fat_close: write the boot record to FAT_BOOT_SECTOR, then the table's
   * byte image to the `fatSectors` sectors from `fatStart` on, each loop
   * turn moving min(512, bytes left) bytes.  Every other sector keeps its
   * contents.
   */
  method FatClose(disk: Disk, bs: FatBoot, fat: seq<u32>) returns (disk': Disk)
    ensures TableWritten(disk', bs, EncodeTable(fat))
    ensures FAT_BOOT_SECTOR in disk'
    ensures FAT_BOOT_SECTOR < bs.fatStart ==> disk'[FAT_BOOT_SECTOR] == BootSectorImage(bs)
    ensures OnlyFatSectorsWritten(disk, disk', bs)
  {
    var bytes := EncodeTable(fat);
    var size := |bytes|;
    var start := disk[FAT_BOOT_SECTOR := BootSectorImage(bs)];
    disk' := start;
    var wrote: nat := 0;
    var i: nat := 0;
    while i < bs.fatSectors
      invariant i <= bs.fatSectors
      invariant wrote == Min(i * DISK_SECTOR_SIZE, size)
      invariant PrefixWritten(start, disk', bs, bytes, i)
    {
      var sector;
      sector, wrote := NextFatSector(bytes, i, wrote);
      WriteKeepsPrefix(start, disk', bs, bytes, i, sector);
      disk' := disk'[bs.fatStart + i := sector];
      i := i + 1;
    }
  }

  /** The first `i` FAT sectors hold their images; everything else is as in `start`. */
  ghost predicate PrefixWritten(start: Disk, d: Disk, bs: FatBoot, bytes: seq<byte>, i: nat) {
    (forall s :: bs.fatStart <= s < bs.fatStart + i ==> s in d && d[s] == SectorImage(bytes, s - bs.fatStart))
    && (forall s :: s in d <==> s in start || bs.fatStart <= s < bs.fatStart + i)
    && (forall s :: s in start && !(bs.fatStart <= s < bs.fatStart + i) ==> d[s] == start[s])
  }

  lemma WriteKeepsPrefix(start: Disk, d: Disk, bs: FatBoot, bytes: seq<byte>, i: nat, sector: seq<byte>)
    requires PrefixWritten(start, d, bs, bytes, i)
    requires sector == SectorImage(bytes, i)
    ensures PrefixWritten(start, d[bs.fatStart + i := sector], bs, bytes, i + 1)
  {
  }

  /**
   * One turn of fat_close's loop: a full sector straight from the table
   * while 512 bytes remain, otherwise the rest copied into a zeroed bounce
   * buffer.
   */
  method NextFatSector(bytes: seq<byte>, i: nat, wrote: nat) returns (sector: seq<byte>, wrote': nat)
    requires wrote == Min(i * DISK_SECTOR_SIZE, |bytes|)
    ensures sector == SectorImage(bytes, i)
    ensures wrote' == Min((i + 1) * DISK_SECTOR_SIZE, |bytes|)
  {
    var left := |bytes| - wrote;
    ChunkStep(i, |bytes|, wrote);
    SectorImageIsChunk(bytes, i, wrote);
    if left >= DISK_SECTOR_SIZE {
      sector := bytes[wrote .. wrote + DISK_SECTOR_SIZE];
      wrote' := wrote + DISK_SECTOR_SIZE;
    } else {
      sector := bytes[wrote..] + Zeros(DISK_SECTOR_SIZE - left);
      wrote' := wrote + left;
    }
  }

  /** Every FAT sector holds its image of the table bytes. */
  predicate TableWritten(disk: Disk, bs: FatBoot, bytes: seq<byte>) {
    forall s :: bs.fatStart <= s < bs.fatStart + bs.fatSectors ==>
      s in disk && disk[s] == SectorImage(bytes, s - bs.fatStart)
  }

  /**
   * Apart from the boot sector and the FAT sectors, `after` has exactly the
   * sectors of `before`, with the same contents.
   */
  ghost predicate OnlyFatSectorsWritten(before: Disk, after: Disk, bs: FatBoot) {
    (forall s :: s in after <==> s in before || s == FAT_BOOT_SECTOR || bs.fatStart <= s < bs.fatStart + bs.fatSectors)
    && (forall s :: s in before && s != FAT_BOOT_SECTOR && !(bs.fatStart <= s < bs.fatStart + bs.fatSectors) ==>
          after[s] == before[s])
  }

  lemma SectorImageIsChunk(bytes: seq<byte>, k: nat, done: nat)
    requires done == Min(k * DISK_SECTOR_SIZE, |bytes|)
    ensures |bytes| - done >= DISK_SECTOR_SIZE ==> SectorImage(bytes, k) == bytes[done .. done + DISK_SECTOR_SIZE]
    ensures |bytes| - done < DISK_SECTOR_SIZE ==>
      SectorImage(bytes, k) == bytes[done..] + Zeros(DISK_SECTOR_SIZE - (|bytes| - done))
  {
  }

  /**
   * One loop turn of fat_close / fat_open: with `done` bytes moved so far,
   * the turn moves a full sector or the (possibly empty) rest, and the
   * count moved stays min(turns * 512, size).
   */
  lemma ChunkStep(i: nat, size: nat, done: nat)
    requires done == Min(i * DISK_SECTOR_SIZE, size)
    ensures done <= size
    ensures size - done >= DISK_SECTOR_SIZE ==> done + DISK_SECTOR_SIZE == Min((i + 1) * DISK_SECTOR_SIZE, size)
    ensures size - done < DISK_SECTOR_SIZE ==> size == Min((i + 1) * DISK_SECTOR_SIZE, size)
  {
  }

  /** The table bytes fat_open assembles: sector contents, zeros past the FAT. */
  function LoadedBytes(disk: Disk, bs: FatBoot, size: nat): (b: seq<byte>)
    requires FatSectorsPresent(disk, bs)
    ensures |b| == size
    ensures forall p :: 0 <= p < size ==> b[p] == LoadedByte(disk, bs, p)
  {
    seq(size, p requires 0 <= p < size => LoadedByte(disk, bs, p))
  }

  /** Byte `p` of the loaded table: from its FAT sector, or 0 past the FAT. */
  function LoadedByte(disk: Disk, bs: FatBoot, p: nat): byte
    requires FatSectorsPresent(disk, bs)
  {
    if p < bs.fatSectors * DISK_SECTOR_SIZE then
      SectorOfByte(p, bs.fatSectors);
      assert HasSector(disk, bs.fatStart + p / DISK_SECTOR_SIZE);
      disk[bs.fatStart + p / DISK_SECTOR_SIZE][p % DISK_SECTOR_SIZE]
    else 0
  }

  /**
   * fat_open: allocate a zeroed table of `fatLength` entries and fill its
   * bytes from the FAT sectors, copying only the meaningful prefix of the
   * last sector; the byte count read never exceeds the table size.
   */
  method FatOpen(disk: Disk, bs: FatBoot, fatLength: u32) returns (fat: seq<u32>)
    requires FatSectorsPresent(disk, bs)
    ensures |fat| == fatLength
    ensures fat == DecodeTable(LoadedBytes(disk, bs, CLUSTER_BYTES * fatLength))
  {
    var size := CLUSTER_BYTES * fatLength;
    var buffer := Zeros(size);
    var read: nat := 0;
    var i: nat := 0;
    while i < bs.fatSectors
      invariant i <= bs.fatSectors
      invariant read == Min(i * DISK_SECTOR_SIZE, size)
      invariant |buffer| == size
      invariant forall p :: 0 <= p < read ==> buffer[p] == LoadedByte(disk, bs, p)
      invariant forall p :: read <= p < size ==> buffer[p] == 0
    {
      var left := size - read;
      ChunkStep(i, size, read);
      assert HasSector(disk, bs.fatStart + i);
      var sector := disk[bs.fatStart + i];
      if left >= DISK_SECTOR_SIZE {
        buffer := buffer[..read] + sector + buffer[read + DISK_SECTOR_SIZE..];
        read := read + DISK_SECTOR_SIZE;
      } else {
        buffer := buffer[..read] + sector[..left] + buffer[read + left..];
        read := read + left;
      }
      i := i + 1;
    }
    assert buffer == LoadedBytes(disk, bs, size);
    fat := DecodeTable(buffer);
  }

  /**
   * Sectors holding the images fat_close writes load back as exactly the
   * table's bytes, provided the FAT sectors have room for the whole table.
   */
  lemma SectorImagesLoadBack(disk: Disk, bs: FatBoot, fat: seq<u32>)
    requires CLUSTER_BYTES * |fat| <= bs.fatSectors * DISK_SECTOR_SIZE
    requires TableWritten(disk, bs, EncodeTable(fat))
    ensures FatSectorsPresent(disk, bs)
    ensures LoadedBytes(disk, bs, CLUSTER_BYTES * |fat|) == EncodeTable(fat)
  {
    var bytes := EncodeTable(fat);
    var loaded := LoadedBytes(disk, bs, |bytes|);
    forall p | 0 <= p < |bytes|
      ensures loaded[p] == bytes[p]
    {
      SectorOfByte(p, bs.fatSectors);
      var k := p / DISK_SECTOR_SIZE;
      var j := p % DISK_SECTOR_SIZE;
      assert disk[bs.fatStart + k] == SectorImage(bytes, k);
      SectorImageByte(bytes, k, j);
    }
  }

  /**
   * fat_close followed by fat_open: the table comes back unchanged when
   * the FAT sectors can hold it.
   */
  method CloseThenOpen(disk: Disk, fs: FatFs) returns (fat: seq<u32>, disk': Disk)
    requires |fs.fat| == fs.fatLength
    requires CLUSTER_BYTES * fs.fatLength <= fs.bs.fatSectors * DISK_SECTOR_SIZE
    ensures fat == fs.fat
  {
    disk' := FatClose(disk, fs.bs, fs.fat);
    SectorImagesLoadBack(disk', fs.bs, fs.fat);
    fat := FatOpen(disk', fs.bs, fs.fatLength);
    DecodeEncodeTable(fs.fat);
  }

  /**
   * fat_init: read the boot record from FAT_BOOT_SECTOR; a wrong magic
   * number means an unformatted disk of `n` sectors, which gets a fresh
   * layout.  Either way fat_fs_init derives the table geometry.
   */
  function FatInit(disk: Disk, n: u32): (fs: FatFs)
    requires HasSector(disk, FAT_BOOT_SECTOR)
    ensures DecodeBoot(disk[FAT_BOOT_SECTOR]).magic == FAT_MAGIC ==> fs.bs == DecodeBoot(disk[FAT_BOOT_SECTOR])
    ensures DecodeBoot(disk[FAT_BOOT_SECTOR]).magic != FAT_MAGIC ==> fs.bs == FatBootCreate(n)
    ensures fs.fat == []
    ensures fs.fatLength * CLUSTER_BYTES <= fs.bs.fatSectors < (fs.fatLength + 1) * CLUSTER_BYTES
    ensures fs.dataStart == fs.bs.fatStart && fs.lastClst == fs.bs.fatStart
  {
    var read := DecodeBoot(disk[FAT_BOOT_SECTOR]);
    var bs := if read.magic != FAT_MAGIC then FatBootCreate(n) else read;
    FatFsInit(FatFs(bs, [], 0, 0, 0))
  }

  /**
   * A formatted disk written by fat_close mounts again with the same boot
   * record, whatever size the caller assumes for an unformatted disk.
   */
  lemma {:induction false} InitAfterCloseKeepsBoot(disk: Disk, disk': Disk, bs: FatBoot, n: u32)
    requires bs.magic == FAT_MAGIC
    requires FAT_BOOT_SECTOR in disk' && disk'[FAT_BOOT_SECTOR] == BootSectorImage(bs)
    ensures HasSector(disk', FAT_BOOT_SECTOR)
    ensures FatInit(disk', n).bs == bs
  {
  }
}
