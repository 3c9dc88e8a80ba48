/** Volume geometry: the boot-sector fields read at mount time and the cluster arithmetic built
    on them (the "Boot Sector and BPB" section of Microsoft's FAT32 File System Specification). */
module Volume {
  import opened Bytes
  import opened Results

  /** The raw BIOS Parameter Block fields that `fat_mount` reads. */
  datatype BootSector = BootSector(
    bytesPerSector: u16,     // offset 0x0B
    sectorsPerCluster: u8,   // offset 0x0D
    reservedSectors: u16,    // offset 0x0E
    numFats: u8,             // offset 0x10
    totalSectors16: u16,     // offset 0x13
    totalSectors32: u32,     // offset 0x20
    sectorsPerFat: u32,      // offset 0x24 (FAT32 layout)
    rootCluster: u32         // offset 0x2C (FAT32 layout)
  )

  /** The fields of `fat_t` other than the image handle. */
  datatype Geometry = Geometry(
    sectorSize: u16,
    sectorsNum: u32,
    sectorsPerCluster: u8,
    fatStart: u32,
    clusterStartLba: u32,
    rootdirFirstCluster: u32
  )

  datatype MountError = Truncated

  /** One past the last boot-sector byte that mounting reads (the root cluster at 0x2C..0x30). */
  const BOOT_FIELDS_END: nat := 0x30

  /** Decodes the BPB fields at their fixed little-endian offsets. */
  function ParseBootSector(img: seq<u8>): (r: Result<BootSector, MountError>)
    ensures r.Ok? <==> |img| >= BOOT_FIELDS_END
  {
    if |img| < BOOT_FIELDS_END then Err(Truncated)
    else Ok(BootSector(
      LE16(img, 0x0B), img[0x0D], LE16(img, 0x0E), img[0x10],
      LE16(img, 0x13), LE32(img, 0x20), LE32(img, 0x24), LE32(img, 0x2C)))
  }

  /** A boot sector holding `b`, every byte mounting does not read set to zero. */
  function EncodeBootSector(b: BootSector): (img: seq<u8>)
    ensures |img| == BOOT_FIELDS_END
  {
    Zeros(0x0B) + Enc16(b.bytesPerSector) + [b.sectorsPerCluster] + Enc16(b.reservedSectors)
    + [b.numFats] + Zeros(2) + Enc16(b.totalSectors16) + Zeros(0x0B) + Enc32(b.totalSectors32)
    + Enc32(b.sectorsPerFat) + Zeros(4) + Enc32(b.rootCluster)
  }

  /** The geometry `fat_mount` derives: the FAT starts after the reserved sectors and the cluster
      heap after all FAT copies; the 16-bit sector count is used unless it is zero. The sum is
      computed in `uint32_t` and wraps. */
  function Derive(b: BootSector): Geometry
  {
    Geometry(
      b.bytesPerSector,
      if b.totalSectors16 == 0 then b.totalSectors32 else b.totalSectors16,
      b.sectorsPerCluster,
      b.reservedSectors,
      Wrap32(b.reservedSectors + b.numFats * b.sectorsPerFat),
      b.rootCluster)
  }

  /** The image position `fat_mount` leaves behind: after the 32-bit sector count when the
      16-bit one is zero, else after the 16-bit one. */
  function MountPos(b: BootSector): nat
  {
    if b.totalSectors16 == 0 then 0x24 else 0x15
  }

  /** Decoding is the inverse of encoding: every field comes back unchanged. */
  lemma BootSectorRoundTrip(b: BootSector)
    ensures ParseBootSector(EncodeBootSector(b)) == Ok(b)
  {
    var img := EncodeBootSector(b);
    assert img[0x0B..0x0D] == Enc16(b.bytesPerSector);
    assert img[0x0D] == b.sectorsPerCluster;
    assert img[0x0E..0x10] == Enc16(b.reservedSectors);
    assert img[0x10] == b.numFats;
    assert img[0x13..0x15] == Enc16(b.totalSectors16);
    assert img[0x20..0x24] == Enc32(b.totalSectors32);
    assert img[0x24..0x28] == Enc32(b.sectorsPerFat);
    assert img[0x2C..0x30] == Enc32(b.rootCluster);
    LE32Slice(Enc32(b.totalSectors32), 0, img, 0x20);
    LE32Slice(Enc32(b.sectorsPerFat), 0, img, 0x24);
    LE32Slice(Enc32(b.rootCluster), 0, img, 0x2C);
  }

  /** The derived layout: the FAT starts at the reserved sector count, and the cluster heap starts
      after `numFats` FATs of `sectorsPerFat` sectors each whenever that sum fits in 32 bits. */
  lemma DeriveLayout(b: BootSector)
    ensures Derive(b).fatStart == b.reservedSectors
    ensures b.reservedSectors + b.numFats * b.sectorsPerFat < U32_MODULUS ==>
              Derive(b).clusterStartLba == b.reservedSectors + b.numFats * b.sectorsPerFat
    ensures Derive(b).rootdirFirstCluster == b.rootCluster
  {
  }

  // ---------------------------------------------------------------------------------------
  // Cluster arithmetic, in uint32_t as `get_cluster_lba` and `get_cluster_pos` compute it.

  /** First sector of cluster `c` (`get_cluster_lba`). */
  function ClusterLba(g: Geometry, c: u32): u32
  {
    Wrap32(g.clusterStartLba + (c - 2) * g.sectorsPerCluster)
  }

  /** Byte position of cluster `c` (`get_cluster_pos`). */
  function ClusterPos(g: Geometry, c: u32): u32
  {
    Wrap32(ClusterLba(g, c) * g.sectorSize)
  }

  /** The cluster-heap offset of cluster `c` in unbounded arithmetic: heap start in bytes plus
      `c - 2` clusters of `sectorsPerCluster * sectorSize` bytes. */
  function HeapOffset(g: Geometry, c: int): int
  {
    g.clusterStartLba * g.sectorSize + (c - 2) * (g.sectorsPerCluster * g.sectorSize)
  }

  /** No step of `get_cluster_pos(c)` wraps around. */
  predicate NoOverflow(g: Geometry, c: int)
  {
    0 <= (g.clusterStartLba + (c - 2) * g.sectorsPerCluster) * g.sectorSize < U32_MODULUS
  }

  lemma MulMono(a: int, b: int, k: nat)
    requires 0 <= a <= b
    ensures a * k <= b * k
  {
  }

  /** Without wrap-around, `get_cluster_pos` is the heap offset. */
  lemma ClusterPosExact(g: Geometry, c: u32)
    requires 2 <= c && NoOverflow(g, c)
    ensures ClusterPos(g, c) == HeapOffset(g, c)
  {
    var lba := g.clusterStartLba + (c - 2) * g.sectorsPerCluster;
    assert 0 <= lba;
    if g.sectorSize > 0 {
      MulMono(1, g.sectorSize, lba);
      assert lba < U32_MODULUS;
      assert ClusterLba(g, c) == lba;
    } else {
      assert ClusterPos(g, c) == 0;
    }
    assert lba * g.sectorSize == HeapOffset(g, c) by {
      calc {
        lba * g.sectorSize;
        g.clusterStartLba * g.sectorSize + ((c - 2) * g.sectorsPerCluster) * g.sectorSize;
        { assert ((c - 2) * g.sectorsPerCluster) * g.sectorSize == (c - 2) * (g.sectorsPerCluster * g.sectorSize); }
        HeapOffset(g, c);
      }
    }
  }

  /** If the position of a later cluster does not wrap, neither does that of an earlier one. */
  lemma NoOverflowDown(g: Geometry, c1: int, c2: int)
    requires 2 <= c1 <= c2 && NoOverflow(g, c2)
    ensures NoOverflow(g, c1)
  {
    MulMono(c1 - 2, c2 - 2, g.sectorsPerCluster);
    MulMono(g.clusterStartLba + (c1 - 2) * g.sectorsPerCluster,
            g.clusterStartLba + (c2 - 2) * g.sectorsPerCluster, g.sectorSize);
  }

  /** Consecutive clusters are exactly one cluster size apart. */
  lemma ClusterStride(g: Geometry, c: u32)
    requires 2 <= c < U32_MODULUS - 1 && NoOverflow(g, c + 1)
    ensures ClusterPos(g, c + 1) - ClusterPos(g, c) == g.sectorsPerCluster * g.sectorSize
  {
    NoOverflowDown(g, c, c + 1);
    ClusterPosExact(g, c);
    ClusterPosExact(g, c + 1);
  }

  /** Cluster positions never decrease with the cluster number, and cluster 2 starts the heap. */
  lemma ClusterPosMonotone(g: Geometry, c1: u32, c2: u32)
    requires 2 <= c1 <= c2 && NoOverflow(g, c2)
    ensures ClusterPos(g, c1) <= ClusterPos(g, c2)
    ensures ClusterPos(g, 2) == g.clusterStartLba * g.sectorSize
  {
    NoOverflowDown(g, c1, c2);
    NoOverflowDown(g, 2, c1);
    ClusterPosExact(g, c1);
    ClusterPosExact(g, c2);
    ClusterPosExact(g, 2);
    MulMono(c1 - 2, c2 - 2, g.sectorsPerCluster * g.sectorSize);
  }

  // ---------------------------------------------------------------------------------------
  // The FAT.

  /** `fat_get_next_cluster` ends a chain only on this exact value. */
  const FAT_END_OF_CHAIN: u32 := 0x0FFF_FFFF

  /** Where `fat_get_next_cluster(c)` reads: the FAT's byte position (a `uint32_t` product)
      plus `(c - 1) * 4`, with `c - 1` computed in `uint32_t` and the rest in 64 bits. */
  function FatEntryPos(g: Geometry, c: u32): nat
  {
    Wrap32(g.fatStart * g.sectorSize) + Wrap32(c - 1) * 4
  }

  /** The position read for cluster `c >= 1` is the FAT32 slot of entry `c - 1`, four bytes
      before the slot `N * 4` that the standard assigns to cluster `N`. */
  lemma FatEntryPosAsWritten(g: Geometry, c: u32)
    requires 1 <= c && g.fatStart * g.sectorSize < U32_MODULUS
    ensures FatEntryPos(g, c) == g.fatStart * g.sectorSize + (c - 1) * 4
    ensures FatEntryPos(g, c) + 4 == g.fatStart * g.sectorSize + c * 4
  {
  }
}
