/** The FAT filesystem's volume arithmetic and its in-memory copy of the file
    allocation table (fat_filesystem in kernel/system_tree/fs/fat/fat_fs.cpp):
    FAT type determination, FAT12/FAT16/FAT32 entry packing, cluster and
    sector numbering, the search for a free cluster and the lengthening or
    shortening of a cluster chain. Bit masks and shifts on the table's
    little-endian words are written as the equivalent remainders, quotients
    and sums. */
module FatFs {
  import opened Common
  import Arith

  datatype FatType = Fat12 | Fat16 | Fat32

  /** The fields of the BIOS parameter block that fix the volume's layout. */
  datatype Bpb = Bpb(bytesPerSec: u16, secsPerCluster: byte, rsvdSecCnt: u16, numFats: byte,
                     rootEntryCnt: u16, totalSecs16: u16, totalSecs32: u32,
                     fatSize16: u16, fatSize32: u32)
  {
    /** Sectors taken by a FAT12/FAT16 root directory, rounded up. */
    function RootDirSectors(): nat
      requires bytesPerSec != 0
    {
      (rootEntryCnt * 32 + (bytesPerSec - 1)) / bytesPerSec
    }

    function FatSize(): nat
    {
      if fatSize16 == 0 then fatSize32 else fatSize16
    }

    /** Sectors taken by the FAT copies, as the FAT12/FAT16 and the FAT32
        layouts each count them. */
    function FatSectors16(): nat
    {
      numFats * fatSize16
    }

    function FatSectors32(): nat
    {
      numFats * fatSize32
    }

    function TotalSectors(): nat
    {
      if totalSecs16 == 0 then totalSecs32 else totalSecs16
    }

    /** Reserved sectors, the FATs and the root directory. */
    function PrivateSectors(): nat
      requires bytesPerSec != 0
    {
      rsvdSecCnt + numFats * FatSize() + RootDirSectors()
    }
  }

  /** FAT12 below 4085 clusters, FAT16 below 65525, FAT32 from there on. */
  function TypeOf(clusters: nat): FatType
  {
    if clusters < 4085 then Fat12 else if clusters < 65525 then Fat16 else Fat32
  }

  /** determine_fat_type: the volume's cluster count, with the data sector
      count computed in uint64_t, and the FAT type it implies. */
  function DetermineFatType(bpb: Bpb): (r: (FatType, u64))
    requires bpb.bytesPerSec != 0 && bpb.secsPerCluster != 0
    ensures r.0 == Fat12 <==> r.1 < 4085
    ensures r.0 == Fat16 <==> 4085 <= r.1 < 65525
    ensures r.0 == Fat32 <==> 65525 <= r.1
    ensures bpb.PrivateSectors() <= bpb.TotalSectors() ==>
      r.1 * bpb.secsPerCluster <= bpb.TotalSectors() - bpb.PrivateSectors() < (r.1 + 1) * bpb.secsPerCluster
    ensures bpb.PrivateSectors() > bpb.TotalSectors() ==> r.0 == Fat32
  {
    var dataSectors := Wrap64(bpb.TotalSectors() - bpb.PrivateSectors());
    var clusters := ClustersIn(dataSectors, bpb.secsPerCluster);
    if bpb.PrivateSectors() > bpb.TotalSectors() then
      PrivateSectorsBound(bpb);
      LargeQuotient(dataSectors, bpb.secsPerCluster);
      (TypeOf(clusters), clusters)
    else
      (TypeOf(clusters), clusters)
  }

  /** The whole clusters of d sectors in x sectors. */
  function ClustersIn(x: u64, d: nat): (q: u64)
    requires d > 0
    ensures q == x / d
    ensures q * d <= x < (q + 1) * d
  {
    WholeClusters(x, d);
    x / d
  }

  /** x / d counts the whole multiples of d in x. */
  lemma WholeClusters(x: nat, d: nat)
    requires d > 0
    ensures 0 <= x / d <= x
    ensures (x / d) * d <= x < (x / d + 1) * d
  {
    var q, r := x / d, x % d;
    assert x == d * q + r;
    assert (q + 1) * d == q * d + d;
    if q < 0 {
      Arith.MulMono(d, q, -1);
    }
    if q > x {
      Arith.MulMono(q, 1, d);
    }
  }

  /** Reserved sectors, 255 copies of the largest FAT and the root
      directory stay far below 2^41 sectors. */
  lemma PrivateSectorsBound(bpb: Bpb)
    requires bpb.bytesPerSec != 0
    ensures bpb.PrivateSectors() < 0x200_0000_0000
  {
    var f := bpb.FatSize();
    if f > 0 {
      Arith.MulMono(f, bpb.numFats, 255);
    }
    var x := bpb.rootEntryCnt * 32 + (bpb.bytesPerSec - 1);
    assert bpb.RootDirSectors() <= x by {
      var d := bpb.bytesPerSec;
      assert x == d * (x / d) + x % d;
      if x / d > x {
        Arith.MulMono(x / d, 1, d);
      }
    }
  }

  /** A wrapped-around data sector count yields more than 65524 clusters. */
  lemma LargeQuotient(x: nat, d: nat)
    requires 0 < d < 0x100 && x >= 0x1_0000_0000_0000_0000 - 0x200_0000_0000
    ensures x / d >= 65525
  {
    var q, r := x / d, x % d;
    assert x == d * q + r;
    if q < 65525 {
      Arith.MulMono(d, q, 65524);
      Arith.MulMono(65524, d, 255);
    }
  }

  // ---------------------------------------------------------------------------
  // The layout of the table.
  // ---------------------------------------------------------------------------

  /** The first byte of cluster n's entry: FAT12 entries are a byte and a
      half long, FAT16 entries two bytes and FAT32 entries four. */
  function EntryOffset(t: FatType, n: nat): nat
  {
    match t
    case Fat12 => n + n / 2
    case Fat16 => 2 * n
    case Fat32 => 4 * n
  }

  /** The bytes read_fat_entry copies for one entry. */
  function EntryWidth(t: FatType): nat
  {
    if t == Fat32 then 4 else 2
  }

  /** One more than the largest value an entry holds. */
  function EntryLimit(t: FatType): nat
  {
    match t
    case Fat12 => 0x1000
    case Fat16 => 0x1_0000
    case Fat32 => 0x1000_0000
  }

  /** The first valid cluster number is 2; a volume of `clusters` clusters
      numbers them 2 to clusters + 1. */
  predicate InFat(clusters: nat, n: nat)
  {
    2 <= n <= clusters + 1
  }

  /** A table of len bytes holds the entry of every cluster of the volume. */
  predicate Covers(t: FatType, clusters: nat, len: nat)
  {
    EntryOffset(t, clusters + 1) + EntryWidth(t) <= len
  }

  lemma OffsetMono(t: FatType, n: nat, m: nat)
    requires n <= m
    ensures EntryOffset(t, n) <= EntryOffset(t, m)
  {
  }

  /** A 16-bit little-endian word of the table. */
  function Word16(fat: seq<byte>, off: nat): (w: nat)
    requires off + 2 <= |fat|
    ensures w < 0x1_0000
  {
    fat[off] as int + 0x100 * fat[off + 1] as int
  }

  /** A 32-bit little-endian word of the table. */
  function Word32(fat: seq<byte>, off: nat): (w: nat)
    requires off + 4 <= |fat|
    ensures w < 0x1_0000_0000
  {
    Word16(fat, off) + 0x1_0000 * Word16(fat, off + 2)
  }

  /** kl_memcpy of the two low bytes of v into the table at off. */
  function Put16(fat: seq<byte>, off: nat, v: nat): (r: seq<byte>)
    requires off + 2 <= |fat| && v < 0x1_0000
    ensures |r| == |fat| && Word16(r, off) == v
    ensures forall i | 0 <= i < |fat| && i != off && i != off + 1 :: r[i] == fat[i]
  {
    fat[off := v % 0x100][off + 1 := v / 0x100]
  }

  /** kl_memcpy of the four low bytes of v into the table at off. */
  function Put32(fat: seq<byte>, off: nat, v: nat): (r: seq<byte>)
    requires off + 4 <= |fat| && v < 0x1_0000_0000
    ensures |r| == |fat| && Word32(r, off) == v
    ensures forall i | 0 <= i < |fat| && !(off <= i < off + 4) :: r[i] == fat[i]
  {
    Put16(Put16(fat, off, v % 0x1_0000), off + 2, v / 0x1_0000)
  }

  /** read_fat_entry: an out-of-range cluster reads as 0; an odd FAT12
      cluster is the high 12 bits of its word and an even one the low 12;
      a FAT32 entry loses its top four bits. */
  function ReadEntry(fat: seq<byte>, t: FatType, clusters: nat, n: nat): (r: nat)
    requires Covers(t, clusters, |fat|)
    ensures r < EntryLimit(t)
    ensures !InFat(clusters, n) ==> r == 0
  {
    if n > clusters + 1 || n < 2 then 0
    else
      OffsetMono(t, n, clusters + 1);
      var off := EntryOffset(t, n);
      match t
      case Fat12 =>
        var w := Word16(fat, off);
        if n % 2 == 1 then w / 0x10 else w % 0x1000
      case Fat16 => Word16(fat, off)
      case Fat32 => Word32(fat, off) % 0x1000_0000
  }

  /** write_fat_entry of e to an in-range cluster n: the value is cut to the
      entry's width; FAT12 keeps the nibble its word shares with the
      neighbouring entry. */
  function WriteEntry(fat: seq<byte>, t: FatType, clusters: nat, n: nat, e: u64): (r: seq<byte>)
    requires Covers(t, clusters, |fat|) && InFat(clusters, n)
    ensures |r| == |fat|
  {
    OffsetMono(t, n, clusters + 1);
    var off := EntryOffset(t, n);
    match t
    case Fat12 =>
      Put16(fat, off, Merge12(Word16(fat, off), n % 2 == 1, e % 0x1000))
    case Fat16 => Put16(fat, off, e % 0x1_0000)
    case Fat32 => Put32(fat, off, e % 0x1000_0000)
  }

  /** The 16-bit FAT12 word that holds the new 12-bit entry v: its high
      twelve bits for an odd cluster, its low twelve for an even one, with
      the neighbouring entry's nibble kept. */
  function Merge12(w: nat, odd: bool, v: nat): (r: nat)
    requires w < 0x1_0000 && v < 0x1000
    ensures r < 0x1_0000
  {
    if odd then w % 0x10 + v * 0x10 else (w / 0x1000) * 0x1000 + v
  }

  /** The FAT12 view of a little-endian word: its top four bits are the
      high byte's high nibble, its low nibble the low byte's, and so on. */
  lemma WordParts(lo: int, hi: int)
    requires 0 <= lo < 0x100 && 0 <= hi < 0x100
    ensures (lo + 0x100 * hi) / 0x1000 == hi / 0x10
    ensures (lo + 0x100 * hi) % 0x10 == lo % 0x10
    ensures (lo + 0x100 * hi) / 0x10 == lo / 0x10 + 0x10 * hi
    ensures (lo + 0x100 * hi) % 0x1000 == lo + 0x100 * (hi % 0x10)
  {
    var x := lo + 0x100 * hi;
    assert hi == 0x10 * (hi / 0x10) + hi % 0x10;
    Arith.DivModUnique(x, 0x1000, hi / 0x10, lo + 0x100 * (hi % 0x10));
    assert lo == 0x10 * (lo / 0x10) + lo % 0x10;
    Arith.DivModUnique(x, 0x10, lo / 0x10 + 0x10 * hi, lo % 0x10);
  }

  /** An even FAT12 entry's new word: the old top nibble above the value. */
  lemma EvenWord(q: int, v: int)
    requires 0 <= q < 0x10 && 0 <= v < 0x1000
    ensures (q * 0x1000 + v) % 0x1000 == v
    ensures (q * 0x1000 + v) / 0x100 == q * 0x10 + v / 0x100
    ensures (q * 0x10 + v / 0x100) / 0x10 == q
  {
    Arith.DivModUnique(q * 0x1000 + v, 0x1000, q, v);
    assert v == 0x100 * (v / 0x100) + v % 0x100;
    Arith.DivModUnique(q * 0x1000 + v, 0x100, q * 0x10 + v / 0x100, v % 0x100);
    Arith.DivModUnique(q * 0x10 + v / 0x100, 0x10, q, v / 0x100);
  }

  /** An odd FAT12 entry's new word: the value above the old low nibble. */
  lemma OddWord(a: int, v: int)
    requires 0 <= a < 0x10 && 0 <= v < 0x1000
    ensures (a + v * 0x10) / 0x10 == v
    ensures (a + v * 0x10) % 0x100 % 0x10 == a
  {
    Arith.DivModUnique(a + v * 0x10, 0x10, v, a);
    assert v == 0x10 * (v / 0x10) + v % 0x10;
    Arith.DivModUnique(a + v * 0x10, 0x100, v / 0x10, a + 0x10 * (v % 0x10));
    Arith.DivModUnique(a + 0x10 * (v % 0x10), 0x10, v % 0x10, a);
  }

  /** An entry written and read back gives the value cut to its width. */
  lemma ReadAfterWrite(fat: seq<byte>, t: FatType, clusters: nat, n: nat, e: u64)
    requires Covers(t, clusters, |fat|) && InFat(clusters, n)
    ensures ReadEntry(WriteEntry(fat, t, clusters, n, e), t, clusters, n) == e % EntryLimit(t)
  {
    match t
    case Fat12 => Fat12ReadAfterWrite(fat, clusters, n, e);
    case Fat16 =>
    case Fat32 =>
  }

  lemma Fat12ReadAfterWrite(fat: seq<byte>, clusters: nat, n: nat, e: u64)
    requires Covers(Fat12, clusters, |fat|) && InFat(clusters, n)
    ensures ReadEntry(WriteEntry(fat, Fat12, clusters, n, e), Fat12, clusters, n) == e % 0x1000
  {
    OffsetMono(Fat12, n, clusters + 1);
    var off := EntryOffset(Fat12, n);
    var w := Word16(fat, off);
    var v := e % 0x1000;
    WordParts(fat[off], fat[off + 1]);
    if n % 2 == 1 {
      OddWord(w % 0x10, v);
    } else {
      EvenWord(w / 0x1000, v);
    }
  }

  /** Writing one entry leaves every other entry as it was, the FAT12 entry
      that shares a byte with it included. */
  lemma WriteKeepsOthers(fat: seq<byte>, t: FatType, clusters: nat, n: nat, e: u64, m: nat)
    requires Covers(t, clusters, |fat|) && InFat(clusters, n) && m != n
    ensures ReadEntry(WriteEntry(fat, t, clusters, n, e), t, clusters, m) == ReadEntry(fat, t, clusters, m)
  {
    if InFat(clusters, m) {
      OffsetMono(t, n, clusters + 1);
      OffsetMono(t, m, clusters + 1);
      var on, om := EntryOffset(t, n), EntryOffset(t, m);
      match t
      case Fat12 => Fat12KeepsOthers(fat, clusters, n, e, m);
      case Fat16 =>
        var r := WriteEntry(fat, t, clusters, n, e);
        assert r[om] == fat[om] && r[om + 1] == fat[om + 1];
      case Fat32 =>
        var r := WriteEntry(fat, t, clusters, n, e);
        assert r[om] == fat[om] && r[om + 1] == fat[om + 1];
        assert r[om + 2] == fat[om + 2] && r[om + 3] == fat[om + 3];
    }
  }

  lemma Fat12KeepsOthers(fat: seq<byte>, clusters: nat, n: nat, e: u64, m: nat)
    requires Covers(Fat12, clusters, |fat|) && InFat(clusters, n) && InFat(clusters, m) && m != n
    ensures ReadEntry(WriteEntry(fat, Fat12, clusters, n, e), Fat12, clusters, m) == ReadEntry(fat, Fat12, clusters, m)
  {
    OffsetMono(Fat12, n, clusters + 1);
    OffsetMono(Fat12, m, clusters + 1);
    var on, om := EntryOffset(Fat12, n), EntryOffset(Fat12, m);
    if n / 2 != m / 2 {
      var r := WriteEntry(fat, Fat12, clusters, n, e);
      Fat12Apart(n, m);
      assert r[om] == fat[om] && r[om + 1] == fat[om + 1];
    } else if n % 2 == 0 {
      assert m == n + 1 && om == on + 1;
      Fat12EvenNeighbour(fat, n, e);
    } else {
      assert m == n - 1 && om == on - 1;
      Fat12OddNeighbour(fat, n, e);
    }
  }

  /** FAT12 entries of clusters in different pairs share no byte. */
  lemma Fat12Apart(n: nat, m: nat)
    requires n / 2 != m / 2
    ensures EntryOffset(Fat12, n) + 2 <= EntryOffset(Fat12, m) || EntryOffset(Fat12, m) + 2 <= EntryOffset(Fat12, n)
  {
  }

  /** The two FAT12 entries of a pair share the middle byte of their three:
      writing the even one keeps the odd one's nibble of it. */
  lemma Fat12EvenNeighbour(fat: seq<byte>, n: nat, e: u64)
    requires n % 2 == 0 && EntryOffset(Fat12, n + 1) + 2 <= |fat|
    ensures var off := EntryOffset(Fat12, n); var w := Word16(fat, off);
      var r := Put16(fat, off, (w / 0x1000) * 0x1000 + e % 0x1000);
      Word16(r, off + 1) / 0x10 == Word16(fat, off + 1) / 0x10
  {
    var on := EntryOffset(Fat12, n);
    var w := Word16(fat, on);
    var r := Put16(fat, on, (w / 0x1000) * 0x1000 + e % 0x1000);
    WordParts(fat[on], fat[on + 1]);
    EvenWord(w / 0x1000, e % 0x1000);
    WordParts(r[on + 1], r[on + 2]);
    WordParts(fat[on + 1], fat[on + 2]);
  }

  /** Writing the odd entry of a pair keeps the even one's nibble of the
      shared byte. */
  lemma Fat12OddNeighbour(fat: seq<byte>, n: nat, e: u64)
    requires n % 2 == 1 && EntryOffset(Fat12, n) + 2 <= |fat|
    ensures var off := EntryOffset(Fat12, n); var w := Word16(fat, off);
      var r := Put16(fat, off, w % 0x10 + (e % 0x1000) * 0x10);
      Word16(r, off - 1) % 0x1000 == Word16(fat, off - 1) % 0x1000
  {
    var on := EntryOffset(Fat12, n);
    var w := Word16(fat, on);
    var r := Put16(fat, on, w % 0x10 + (e % 0x1000) * 0x10);
    WordParts(fat[on], fat[on + 1]);
    OddWord(w % 0x10, e % 0x1000);
    WordParts(r[on - 1], r[on]);
    WordParts(fat[on - 1], fat[on]);
  }

  // ---------------------------------------------------------------------------
  // Cluster numbers.
  // ---------------------------------------------------------------------------

  /** The largest cluster number that is not reserved, per FAT type. */
  function MaxNormal(t: FatType): nat
  {
    match t
    case Fat12 => 0x0FEF
    case Fat16 => 0x0FFEF
    case Fat32 => 0x0FFF_FFEF
  }

  /** is_normal_cluster_number: neither 0, 1 nor a reserved value. */
  predicate IsNormal(t: FatType, n: nat)
  {
    n <= MaxNormal(t) && n != 0 && n != 1
  }

  /** The end-of-chain marker change_file_chain_length writes, 0xFFFFFFFF,
      as the entry stores it. */
  function EndOfChain(t: FatType): nat
  {
    0xFFFF_FFFF % EntryLimit(t)
  }

  /** Free entries, end-of-chain markers, clusters 0 and 1 and the values
      above the type's limit all end a walk along a chain. */
  lemma NotNormal(t: FatType, n: nat)
    ensures !IsNormal(t, 0) && !IsNormal(t, 1) && !IsNormal(t, EndOfChain(t))
    ensures n > MaxNormal(t) ==> !IsNormal(t, n)
    ensures 2 <= n <= MaxNormal(t) ==> IsNormal(t, n)
  {
  }

  // ---------------------------------------------------------------------------
  // The mounted filesystem.
  // ---------------------------------------------------------------------------

  /** fat_filesystem: the volume's geometry, fixed when it is mounted, the
      in-memory copy of the first FAT and whether that copy differs from
      the one on disk. */
  class FatFilesystem {
    const fatType: FatType
    const numberOfClusters: nat
    const bytesPerSec: u16
    const secsPerCluster: byte
    const maxSectors: nat
    const rootDirStartSector: nat
    const rootDirSectorCount: nat
    const firstDataSector: nat
    const rawFat: array<byte>
    var fatDirty: bool

    /** The geometry is that of a volume the constructor accepts, and the
        table holds an entry for every cluster. */
    predicate Valid()
    {
      Geometry() && Covers(fatType, numberOfClusters, rawFat.Length)
    }

    /** Clusters are at least a sector long; the volume's sector counts are
        as wide as the boot sector's fields allow. */
    predicate Geometry()
    {
      && secsPerCluster > 0
      && maxSectors < 0x1_0000_0000
      && firstDataSector < 0x200_0000_0000
    }

    /** The constructor, given the boot sector and the first FAT as read
        from the disk. */
    constructor (bpb: Bpb, image: seq<byte>)
      requires bpb.bytesPerSec != 0 && bpb.secsPerCluster != 0
      requires Covers(DetermineFatType(bpb).0, DetermineFatType(bpb).1, |image|)
      ensures (fatType, numberOfClusters) == DetermineFatType(bpb)
      ensures bytesPerSec == bpb.bytesPerSec && secsPerCluster == bpb.secsPerCluster
      ensures maxSectors == bpb.TotalSectors()
      ensures fatType != Fat32 ==>
        && rootDirStartSector == bpb.rsvdSecCnt + bpb.FatSectors16()
        && rootDirSectorCount == bpb.RootDirSectors()
        && firstDataSector == rootDirStartSector + rootDirSectorCount
      ensures fatType == Fat32 ==>
        && rootDirStartSector == 0 && rootDirSectorCount == 0
        && firstDataSector == (bpb.rsvdSecCnt + bpb.FatSectors32()) % 0x1_0000_0000
      ensures fresh(rawFat) && rawFat[..] == image && !fatDirty
      ensures Valid()
    {
      var kind := DetermineFatType(bpb);
      fatType, numberOfClusters := kind.0, kind.1;
      bytesPerSec := bpb.bytesPerSec;
      secsPerCluster := bpb.secsPerCluster;
      maxSectors := bpb.TotalSectors();
      if kind.0 != Fat32 {
        rootDirStartSector := bpb.rsvdSecCnt + bpb.FatSectors16();
        rootDirSectorCount := bpb.RootDirSectors();
        var b := bpb.(fatSize32 := 0);
        PrivateSectorsBound(b);
        firstDataSector := bpb.rsvdSecCnt + bpb.FatSectors16() + bpb.RootDirSectors();
      } else {
        rootDirStartSector, rootDirSectorCount := 0, 0;
        firstDataSector := (bpb.rsvdSecCnt + bpb.FatSectors32()) % 0x1_0000_0000;
      }
      rawFat := new byte[|image|](i requires 0 <= i < |image| => image[i]);
      fatDirty := false;
    }

    /** convert_cluster_to_sector_num: the first sector of a normal
        cluster, which never wraps around; ~0 for any other number. */
    function ClusterToSector(n: nat): (s: u64)
      requires Geometry()
      ensures !IsNormal(fatType, n) ==> s == UINT64_MAX
      ensures IsNormal(fatType, n) ==> s == (n - 2) * secsPerCluster + firstDataSector
    {
      if IsNormal(fatType, n) then
        Arith.MulMono(secsPerCluster, n - 2, 0x1000_0000);
        Wrap64((n - 2) * secsPerCluster + firstDataSector)
      else UINT64_MAX
    }

    /** convert_sector_to_cluster_num: the cluster holding sector s and the
        sector's place in it, for a sector between the first data sector
        and the volume's last sector. */
    function SectorToCluster(s: nat): (r: Option<(nat, nat)>)
      requires Geometry()
      ensures r.Some? <==> firstDataSector <= s <= maxSectors
      ensures r.Some? ==> r.value.0 >= 2 && r.value.1 < secsPerCluster
    {
      if s < firstDataSector || s > maxSectors then None
      else
        var d := s - firstDataSector;
        Arith.ModBelow(d, secsPerCluster);
        Some((d / secsPerCluster + 2, d % secsPerCluster))
    }

    /** Every sector of a normal cluster inside the volume maps back to that
        cluster and its offset. */
    lemma SectorToClusterInverts(n: nat, o: nat)
      requires Geometry() && IsNormal(fatType, n) && o < secsPerCluster
      requires ClusterToSector(n) + o <= maxSectors
      ensures SectorToCluster(ClusterToSector(n) + o) == Some((n, o))
    {
      var x := secsPerCluster * (n - 2);
      assert ClusterToSector(n) == x + firstDataSector;
      Arith.DivModUnique(x + o, secsPerCluster, n - 2, o);
    }

    /** A sector that maps to a normal cluster is that cluster's first
        sector plus its offset. */
    lemma ClusterToSectorInverts(s: nat)
      requires Geometry() && SectorToCluster(s).Some? && IsNormal(fatType, SectorToCluster(s).value.0)
      ensures ClusterToSector(SectorToCluster(s).value.0) + SectorToCluster(s).value.1 == s
    {
      var d := s - firstDataSector;
      assert d == secsPerCluster * (d / secsPerCluster) + d % secsPerCluster;
    }

    /** get_next_file_sector: the following sector of the same cluster, or
        the first sector of the cluster the FAT names next; none when the
        sector is outside the data region or the chain ends. */
    function NextFileSector(s: u64): (r: Option<u64>)
      requires Valid()
      reads rawFat
    {
      match SectorToCluster(s)
      case None => None
      case Some((c, o)) =>
        if o == secsPerCluster - 1 then
          var next := ReadEntry(rawFat[..], fatType, numberOfClusters, c);
          if IsNormal(fatType, next) then Some(ClusterToSector(next)) else None
        else Some(s + 1)
    }

    /** A next sector inside the volume is the next one of the same cluster
        or the first one of the cluster the current one links to. */
    lemma NextFileSectorFollowsChain(s: u64)
      requires Valid() && NextFileSector(s).Some? && NextFileSector(s).value <= maxSectors
      ensures SectorToCluster(s).Some?
      ensures var (c, o) := SectorToCluster(s).value;
        SectorToCluster(NextFileSector(s).value) ==
          if o + 1 < secsPerCluster then Some((c, (o + 1) as nat))
          else Some((ReadEntry(rawFat[..], fatType, numberOfClusters, c), 0))
    {
      var (c, o) := SectorToCluster(s).value;
      if o + 1 < secsPerCluster {
        var d := s - firstDataSector;
        assert d == secsPerCluster * (c - 2) + o;
        Arith.DivModUnique(d + 1, secsPerCluster, c - 2, o + 1);
      } else {
        SectorToClusterInverts(ReadEntry(rawFat[..], fatType, numberOfClusters, c), 0);
      }
    }

    /** write_fat_entry: an in-range entry takes the value cut to its width
        and the table is marked dirty; any other cluster number is refused
        and nothing changes. The success path never sets the result, so it
        reports the initial UNKNOWN; every caller ignores it. */
    method WriteFatEntry(n: nat, e: u64) returns (r: ErrCode)
      requires Valid()
      modifies rawFat, this`fatDirty
      ensures InFat(numberOfClusters, n) ==>
        r == Unknown && fatDirty && rawFat[..] == WriteEntry(old(rawFat[..]), fatType, numberOfClusters, n, e)
      ensures !InFat(numberOfClusters, n) ==>
        r == OutOfRange && fatDirty == old(fatDirty) && rawFat[..] == old(rawFat[..])
    {
      if n > numberOfClusters + 1 || n < 2 {
        return OutOfRange;
      }
      OffsetMono(fatType, n, numberOfClusters + 1);
      var off := EntryOffset(fatType, n);
      match fatType {
        case Fat12 =>
          var w := rawFat[off] as int + 0x100 * rawFat[off + 1] as int;
          assert w == Word16(rawFat[..], off);
          Store16(off, Merge12(w, n % 2 == 1, e % 0x1000));
        case Fat16 =>
          Store16(off, e % 0x1_0000);
        case Fat32 =>
          Store32(off, e % 0x1000_0000);
      }
      fatDirty := true;
      r := Unknown;
    }

    /** kl_memcpy of a 16-bit value into the table at off, low byte first. */
    method Store16(off: nat, v: nat)
      requires off + 2 <= rawFat.Length && v < 0x1_0000
      modifies rawFat
      ensures rawFat[..] == Put16(old(rawFat[..]), off, v)
    {
      rawFat[off], rawFat[off + 1] := v % 0x100, v / 0x100;
    }

    /** kl_memcpy of a 32-bit value into the table at off, low byte first. */
    method Store32(off: nat, v: nat)
      requires off + 4 <= rawFat.Length && v < 0x1_0000_0000
      modifies rawFat
      ensures rawFat[..] == Put32(old(rawFat[..]), off, v)
    {
      Store16(off, v % 0x1_0000);
      Store16(off + 2, v / 0x1_0000);
    }

    /** select_free_cluster with every cluster of the volume searched: the
        lowest cluster whose entry is free, or OUT_OF_RESOURCE when none is.
        (The source's loop stops before the last cluster;
        LastClusterNeverSelected shows the difference.) */
    method SelectFreeCluster() returns (r: ErrCode, free: nat)
      requires Valid()
      ensures r == NoError || r == OutOfResource
      ensures r == NoError ==>
        && InFat(numberOfClusters, free)
        && ReadEntry(rawFat[..], fatType, numberOfClusters, free) == 0
        && forall m | 2 <= m < free :: ReadEntry(rawFat[..], fatType, numberOfClusters, m) != 0
      ensures r == OutOfResource ==>
        forall m | InFat(numberOfClusters, m) :: ReadEntry(rawFat[..], fatType, numberOfClusters, m) != 0
    {
      var i := 2;
      while i < numberOfClusters + 2
        invariant 2 <= i <= numberOfClusters + 2
        invariant forall m | 2 <= m < i :: ReadEntry(rawFat[..], fatType, numberOfClusters, m) != 0
      {
        if ReadEntry(rawFat[..], fatType, numberOfClusters, i) == 0 {
          return NoError, i;
        }
        i := i + 1;
      }
      return OutOfResource, 0;
    }

    /** change_file_chain_length, corrected: the chain starting at start
        (no chain when oldLength is 0) is cut to, or extended to, newLength
        clusters, and the table is written back. Each cluster added to the
        chain is marked as its end as soon as it is linked, so the next
        search cannot pick it again. (The source leaves it free;
        NewChainOfTwoGetsOneCluster shows what that does.) */
    method ChangeFileChainLength(start: nat, oldLength: nat, newLength: nat, ghost chain: seq<nat>)
      returns (r: ErrCode, newStart: nat, ghost chain': seq<nat>)
      requires Valid() && numberOfClusters + 2 <= EntryLimit(fatType)
      requires oldLength == 0 || IsNormal(fatType, start) ==>
        && IsChain(rawFat[..], fatType, numberOfClusters, chain) && |chain| == oldLength
        && (oldLength > 0 ==> chain[0] == start)
      modifies rawFat, this`fatDirty
      ensures oldLength > 0 && !IsNormal(fatType, start) ==>
        r == InvalidParam && newStart == start && rawFat[..] == old(rawFat[..]) && fatDirty == old(fatDirty)
      ensures oldLength == newLength && (oldLength == 0 || IsNormal(fatType, start)) ==>
        r == NoError && newStart == start && rawFat[..] == old(rawFat[..]) && fatDirty == old(fatDirty)
      ensures oldLength != newLength && (oldLength == 0 || IsNormal(fatType, start)) ==>
        && ResizeOutcome(old(rawFat[..]), rawFat[..], fatType, numberOfClusters, chain, chain', newLength, r)
        && (oldLength > 0 ==> newStart == start)
        && (|chain'| > 0 ==> chain'[0] == newStart)
        && !fatDirty
    {
      chain' := chain;
      if (oldLength != 0 && !IsNormal(fatType, start)) || (start == 0 && oldLength != 0) {
        return InvalidParam, start, chain';
      }
      if oldLength == newLength {
        return NoError, start, chain';
      }
      ghost var fat0 := rawFat[..];
      var cur;
      ghost var ext;
      r, cur, newStart, ext := StartChain(start, oldLength, newLength, chain);
      r, chain' := WalkChain(fat0, chain, oldLength, newLength, r, cur, newStart, ext);
      ghost var fat := rawFat[..];
      // The device's answer is not looked at.
      var _ := WriteFatToDisk(NoError);
      assert rawFat[..] == fat;
      assert ResizeOutcome(old(rawFat[..]), rawFat[..], fatType, numberOfClusters, chain, chain', newLength, r);
    }

    /** The walk of change_file_chain_length: one step per position up to
        the longer of the two lengths, until a step fails. */
    method WalkChain(ghost fat0: seq<byte>, ghost chain: seq<nat>, oldLength: nat, newLength: nat,
                     r0: ErrCode, cur0: nat, newStart: nat, ghost ext0: seq<nat>)
      returns (r: ErrCode, ghost chain': seq<nat>)
      requires Valid() && Covers(fatType, numberOfClusters, |fat0|) && oldLength != newLength
      requires LoopState(fat0, rawFat[..], fatType, numberOfClusters, chain, ext0, oldLength, newLength, 1, cur0, r0)
      requires newLength > oldLength && |ext0| > 0 ==> ext0[0] == newStart
      requires oldLength > 0 ==> chain[0] == newStart
      modifies rawFat, this`fatDirty
      ensures ResizeOutcome(fat0, rawFat[..], fatType, numberOfClusters, chain, chain', newLength, r)
      ensures |chain'| > 0 ==> chain'[0] == newStart
    {
      var maxLength := Max(oldLength, newLength);
      var len := 1;
      var cur := cur0;
      ghost var ext := ext0;
      r := r0;
      while len <= maxLength && r == NoError
        invariant LoopState(fat0, rawFat[..], fatType, numberOfClusters, chain, ext, oldLength, newLength, len, cur, r)
        invariant newLength > oldLength && |ext| > 0 ==> ext[0] == newStart
        decreases maxLength + 1 - len
      {
        ghost var ext';
        r, cur, ext' := ChainStep(fat0, chain, ext, oldLength, newLength, len, cur, newStart);
        ext := ext';
        len := len + 1;
      }
      LoopFinish(fat0, rawFat[..], fatType, numberOfClusters, chain, ext, oldLength, newLength, len, cur, r);
      chain' := if newLength > oldLength then ext else chain[..newLength];
    }

    /** The start of change_file_chain_length's work: a file without a
        chain gets a free cluster as its first, marked as the end of the
        chain at once; otherwise the walk starts at the start cluster.
        (The source asks whether the start cluster is 0 rather than whether
        the chain is empty, so an empty chain with a stale start is grown
        from that cluster; StaleStartReusedAsWritten shows it.) */
    method StartChain(start: nat, oldLength: nat, newLength: nat, ghost chain: seq<nat>)
      returns (r: ErrCode, cur: nat, newStart: nat, ghost ext: seq<nat>)
      requires Valid() && numberOfClusters + 2 <= EntryLimit(fatType) && oldLength != newLength
      requires IsChain(rawFat[..], fatType, numberOfClusters, chain) && |chain| == oldLength
      requires oldLength > 0 ==> IsNormal(fatType, start) && chain[0] == start
      modifies rawFat, this`fatDirty
      ensures LoopState(old(rawFat[..]), rawFat[..], fatType, numberOfClusters, chain, ext, oldLength, newLength, 1, cur, r)
      ensures oldLength > 0 ==> newStart == start
      ensures newLength > oldLength && |ext| > 0 ==> ext[0] == newStart
    {
      ghost var fat0 := rawFat[..];
      ext := chain;
      cur := start;
      newStart := start;
      r := NoError;
      if oldLength == 0 {
        r, cur := SelectFreeCluster();
        if r == NoError {
          newStart := cur;
          var _ := WriteFatEntry(cur, 0xFFFF_FFFF);
          ext := [cur];
          StartNewChain(fat0, rawFat[..], fatType, numberOfClusters, newLength, cur);
        } else {
          NoClusterForNewChain(fat0, fatType, numberOfClusters, newLength);
        }
      } else if newLength > oldLength {
        StartLengthening(fat0, fatType, numberOfClusters, chain, newLength);
      } else {
        StartShortening(fat0, fatType, numberOfClusters, chain, newLength);
      }
    }

    /** One pass of change_file_chain_length's loop at chain position len,
        with cur the cluster there: end the chain, free the cluster, add a
        cluster behind it, or only follow the chain. */
    method ChainStep(ghost fat0: seq<byte>, ghost chain: seq<nat>, ghost ext: seq<nat>, oldLength: nat,
                     newLength: nat, len: nat, cur: nat, ghost first: nat)
      returns (r: ErrCode, next: nat, ghost ext': seq<nat>)
      requires Valid() && Covers(fatType, numberOfClusters, |fat0|)
      requires LoopState(fat0, rawFat[..], fatType, numberOfClusters, chain, ext, oldLength, newLength, len, cur, NoError)
      requires len <= Max(oldLength, newLength)
      requires newLength > oldLength && |ext| > 0 ==> ext[0] == first
      modifies rawFat, this`fatDirty
      ensures LoopState(fat0, rawFat[..], fatType, numberOfClusters, chain, ext', oldLength, newLength, len + 1, next, r)
      ensures newLength > oldLength && |ext'| > 0 ==> ext'[0] == first
    {
      ghost var fat := rawFat[..];
      ext' := ext;
      r := NoError;
      if len == newLength {
        next := ReadEntry(rawFat[..], fatType, numberOfClusters, cur);
        var _ := WriteFatEntry(cur, 0xFFFF_FFFF);
        MarkEndStep(fat0, fat, rawFat[..], fatType, numberOfClusters, chain, ext, oldLength, newLength, len, cur);
      } else if len > newLength {
        next := ReadEntry(rawFat[..], fatType, numberOfClusters, cur);
        var _ := WriteFatEntry(cur, 0);
        FreeStep(fat0, fat, rawFat[..], fatType, numberOfClusters, chain, ext, oldLength, newLength, len, cur);
      } else if len >= oldLength {
        r, next := SelectFreeCluster();
        if r == NoError {
          var _ := WriteFatEntry(cur, next);
          ghost var fat1 := rawFat[..];
          var _ := WriteFatEntry(next, 0xFFFF_FFFF);
          AddStep(fat0, fat, fat1, rawFat[..], fatType, numberOfClusters, chain, ext, oldLength, newLength,
                  len, cur, next);
          ext' := ext + [next];
        } else {
          AddFailedStep(fat0, fat, fatType, numberOfClusters, chain, ext, oldLength, newLength, len, cur, next);
        }
      } else {
        next := ReadEntry(rawFat[..], fatType, numberOfClusters, cur);
        WalkStep(fat0, fat, fatType, numberOfClusters, chain, ext, oldLength, newLength, len, cur);
      }
    }

    /** write_fat_to_disk: the table is written back through the block
        device, whose status is passed in, and is clean afterwards. */
    method WriteFatToDisk(deviceStatus: ErrCode) returns (r: ErrCode)
      modifies this`fatDirty
      ensures r == deviceStatus && !fatDirty
    {
      fatDirty := false;
      r := deviceStatus;
    }
  }

  // ---------------------------------------------------------------------------
  // select_free_cluster as written.
  // ---------------------------------------------------------------------------

  /** The first free entry among clusters i up to, but not including,
      bound. */
  function FirstFreeBelow(fat: seq<byte>, t: FatType, clusters: nat, i: nat, bound: nat): (r: Option<nat>)
    requires Covers(t, clusters, |fat|)
    ensures r.Some? ==> i <= r.value < bound && ReadEntry(fat, t, clusters, r.value) == 0
    decreases bound - i
  {
    if i >= bound then None
    else if ReadEntry(fat, t, clusters, i) == 0 then Some(i)
    else FirstFreeBelow(fat, t, clusters, i + 1, bound)
  }

  /** select_free_cluster as written: its loop runs while
      i < number_of_clusters + 1, so cluster number_of_clusters + 1, the
      last one the table describes, is never looked at. */
  function SelectFreeAsWritten(fat: seq<byte>, t: FatType, clusters: nat): (r: Option<nat>)
    requires Covers(t, clusters, |fat|)
    ensures r.Some? ==> 2 <= r.value <= clusters && ReadEntry(fat, t, clusters, r.value) == 0
  {
    FirstFreeBelow(fat, t, clusters, 2, clusters + 1)
  }

  /** The search only skips clusters whose entries are in use. */
  lemma {:induction false} FirstFreeBelowNone(fat: seq<byte>, t: FatType, clusters: nat, i: nat, bound: nat)
    requires Covers(t, clusters, |fat|)
    requires forall m | i <= m < bound :: ReadEntry(fat, t, clusters, m) != 0
    ensures FirstFreeBelow(fat, t, clusters, i, bound) == None
    decreases bound - i
  {
    if i < bound {
      FirstFreeBelowNone(fat, t, clusters, i + 1, bound);
    }
  }

  /** A volume whose only free cluster is its last one is reported full. */
  lemma LastClusterNeverSelected(fat: seq<byte>, t: FatType, clusters: nat)
    requires Covers(t, clusters, |fat|) && clusters > 0
    requires ReadEntry(fat, t, clusters, clusters + 1) == 0
    requires forall m | 2 <= m <= clusters :: ReadEntry(fat, t, clusters, m) != 0
    ensures InFat(clusters, clusters + 1)
    ensures SelectFreeAsWritten(fat, t, clusters) == None
  {
    FirstFreeBelowNone(fat, t, clusters, 2, clusters + 1);
  }

  // ---------------------------------------------------------------------------
  // Cluster chains.
  // ---------------------------------------------------------------------------

  /** write_fat_entry on a table value: a cluster outside the table is
      refused and the table stays as it was. */
  function Store(fat: seq<byte>, t: FatType, clusters: nat, n: nat, e: u64): (r: seq<byte>)
    requires Covers(t, clusters, |fat|)
    ensures |r| == |fat|
  {
    if InFat(clusters, n) then WriteEntry(fat, t, clusters, n, e) else fat
  }

  /** cs is a chain of the table: distinct clusters of the volume, each
      entry naming the next cluster and the last one holding the end of
      chain marker. */
  ghost predicate IsChain(fat: seq<byte>, t: FatType, clusters: nat, cs: seq<nat>)
    requires Covers(t, clusters, |fat|)
  {
    && (forall i | 0 <= i < |cs| :: InFat(clusters, cs[i]))
    && (forall i, j | 0 <= i < j < |cs| :: cs[i] != cs[j])
    && (forall i | 0 <= i < |cs| - 1 :: ReadEntry(fat, t, clusters, cs[i]) == cs[i + 1])
    && (|cs| > 0 ==> ReadEntry(fat, t, clusters, cs[|cs| - 1]) == EndOfChain(t))
  }

  /** No cluster of the volume is free. */
  ghost predicate NoFree(fat: seq<byte>, t: FatType, clusters: nat)
    requires Covers(t, clusters, |fat|)
  {
    forall m | InFat(clusters, m) :: ReadEntry(fat, t, clusters, m) != 0
  }

  /** The table fat0 with the chain cs turned into the chain cs': the two
      agree on their common prefix, clusters cut off the end are free,
      clusters added were free before, and every cluster in neither chain
      keeps its entry. */
  ghost predicate Resized(fat0: seq<byte>, fat: seq<byte>, t: FatType, clusters: nat, cs: seq<nat>, cs': seq<nat>)
    requires Covers(t, clusters, |fat0|) && Covers(t, clusters, |fat|)
  {
    && IsChain(fat, t, clusters, cs')
    && cs'[..Min(|cs|, |cs'|)] == cs[..Min(|cs|, |cs'|)]
    && (forall k | |cs'| <= k < |cs| :: ReadEntry(fat, t, clusters, cs[k]) == 0)
    && (forall m | m in cs' && m !in cs :: ReadEntry(fat0, t, clusters, m) == 0)
    && (forall m | InFat(clusters, m) && m !in cs && m !in cs' ::
          ReadEntry(fat, t, clusters, m) == ReadEntry(fat0, t, clusters, m))
  }

  /** What change_file_chain_length (corrected) leaves: the chain resized
      to newLength clusters or, with OUT_OF_RESOURCE, lengthened as far as
      the free clusters allowed. */
  ghost predicate ResizeOutcome(fat0: seq<byte>, fat: seq<byte>, t: FatType, clusters: nat, chain: seq<nat>,
                                cs': seq<nat>, newLength: nat, r: ErrCode)
    requires Covers(t, clusters, |fat0|) && Covers(t, clusters, |fat|)
  {
    && (r == NoError || r == OutOfResource)
    && Resized(fat0, fat, t, clusters, chain, cs')
    && (r == NoError ==> |cs'| == newLength)
    && (r == OutOfResource ==> |chain| <= |cs'| < newLength && NoFree(fat, t, clusters))
  }

  /** Writing one entry leaves every other entry as it was. */
  lemma StoreKeepsOthers(fat: seq<byte>, t: FatType, clusters: nat, n: nat, e: u64)
    requires Covers(t, clusters, |fat|)
    ensures forall m | m != n :: ReadEntry(Store(fat, t, clusters, n, e), t, clusters, m) == ReadEntry(fat, t, clusters, m)
  {
    forall m | m != n
      ensures ReadEntry(Store(fat, t, clusters, n, e), t, clusters, m) == ReadEntry(fat, t, clusters, m)
    {
      if InFat(clusters, n) {
        WriteKeepsOthers(fat, t, clusters, n, e, m);
      }
    }
  }

  /** fat' holds the same entry as fat for every cluster except n. */
  ghost predicate SameExcept(fat: seq<byte>, fat': seq<byte>, t: FatType, clusters: nat, n: nat)
    requires Covers(t, clusters, |fat|) && Covers(t, clusters, |fat'|)
  {
    forall m | m != n :: ReadEntry(fat', t, clusters, m) == ReadEntry(fat, t, clusters, m)
  }

  /** What a write to one entry does, in terms of the entries alone. */
  lemma StoreEffect(fat: seq<byte>, t: FatType, clusters: nat, n: nat, e: u64)
    requires Covers(t, clusters, |fat|)
    ensures SameExcept(fat, Store(fat, t, clusters, n, e), t, clusters, n)
    ensures InFat(clusters, n) ==> ReadEntry(Store(fat, t, clusters, n, e), t, clusters, n) == e % EntryLimit(t)
  {
    StoreKeepsOthers(fat, t, clusters, n, e);
    if InFat(clusters, n) {
      ReadAfterWrite(fat, t, clusters, n, e);
    }
  }

  /** Every entry of a chain is in use, so a free cluster is on no chain. */
  lemma FreeIsOffChain(fat: seq<byte>, t: FatType, clusters: nat, cs: seq<nat>, y: nat)
    requires Covers(t, clusters, |fat|) && IsChain(fat, t, clusters, cs)
    requires ReadEntry(fat, t, clusters, y) == 0
    ensures y !in cs
  {
    forall i | 0 <= i < |cs|
      ensures cs[i] != y
    {
      if i < |cs| - 1 {
        assert ReadEntry(fat, t, clusters, cs[i]) == cs[i + 1];
      }
    }
  }

  /** The loop of change_file_chain_length (corrected) at its head, while a
      chain is lengthened: ext is the chain as it stands, extended by
      clusters that end in the end of chain marker as soon as they join it. */
  ghost predicate GrowState(fat0: seq<byte>, fat: seq<byte>, t: FatType, clusters: nat, chain: seq<nat>,
                            ext: seq<nat>, newLength: nat, len: nat, cur: nat, r: ErrCode)
    requires Covers(t, clusters, |fat0|) && Covers(t, clusters, |fat|)
  {
    && Resized(fat0, fat, t, clusters, chain, ext)
    && |chain| <= |ext| <= newLength
    && (r == NoError || r == OutOfResource)
    && (r == NoError ==>
          && 1 <= len <= newLength + 1
          && |ext| == Max(|chain|, Min(len, newLength))
          && (len <= newLength ==> cur == ext[len - 1]))
    && (r == OutOfResource ==> |ext| < newLength && NoFree(fat, t, clusters))
  }

  /** The loop at its head while a chain is shortened: cur is the len-th
      cluster, the kept prefix ends once the loop has passed it, and the
      clusters behind it that the loop has passed are free. */
  ghost predicate ShrinkState(fat0: seq<byte>, fat: seq<byte>, t: FatType, clusters: nat, chain: seq<nat>,
                              newLength: nat, len: nat, cur: nat)
    requires Covers(t, clusters, |fat0|) && Covers(t, clusters, |fat|)
  {
    && newLength < |chain|
    && 1 <= len <= |chain| + 1
    && (len <= |chain| ==> cur == chain[len - 1])
    && (len <= newLength ==> fat == fat0)
    && (len > newLength ==> IsChain(fat, t, clusters, chain[..newLength]))
    && (forall k | newLength <= k < len - 1 :: ReadEntry(fat, t, clusters, chain[k]) == 0)
    && (forall k | len - 1 <= k < |chain| ::
          ReadEntry(fat, t, clusters, chain[k]) == ReadEntry(fat0, t, clusters, chain[k]))
    && (forall m | InFat(clusters, m) && m !in chain ::
          ReadEntry(fat, t, clusters, m) == ReadEntry(fat0, t, clusters, m))
  }

  ghost predicate LoopState(fat0: seq<byte>, fat: seq<byte>, t: FatType, clusters: nat, chain: seq<nat>,
                            ext: seq<nat>, oldLength: nat, newLength: nat, len: nat, cur: nat, r: ErrCode)
    requires Covers(t, clusters, |fat0|) && Covers(t, clusters, |fat|)
  {
    && IsChain(fat0, t, clusters, chain) && |chain| == oldLength
    && clusters + 2 <= EntryLimit(t)
    && if newLength > oldLength then GrowState(fat0, fat, t, clusters, chain, ext, newLength, len, cur, r)
       else r == NoError && ShrinkState(fat0, fat, t, clusters, chain, newLength, len, cur)
  }

  /** The loop's first state when an existing chain is lengthened. */
  lemma StartLengthening(fat0: seq<byte>, t: FatType, clusters: nat, chain: seq<nat>, newLength: nat)
    requires Covers(t, clusters, |fat0|) && clusters + 2 <= EntryLimit(t)
    requires IsChain(fat0, t, clusters, chain) && 0 < |chain| < newLength
    ensures LoopState(fat0, fat0, t, clusters, chain, chain, |chain|, newLength, 1, chain[0], NoError)
  {
    assert chain[..|chain|] == chain;
  }

  /** The loop's first state when a new chain starts at the free cluster x,
      marked as the end of the chain at once. */
  lemma StartNewChain(fat0: seq<byte>, fat: seq<byte>, t: FatType, clusters: nat, newLength: nat, x: nat)
    requires Covers(t, clusters, |fat0|) && clusters + 2 <= EntryLimit(t) && newLength > 0
    requires InFat(clusters, x) && ReadEntry(fat0, t, clusters, x) == 0
    requires fat == Store(fat0, t, clusters, x, 0xFFFF_FFFF)
    ensures LoopState(fat0, fat, t, clusters, [], [x], 0, newLength, 1, x, NoError)
  {
    ReadAfterWrite(fat0, t, clusters, x, 0xFFFF_FFFF);
    StoreKeepsOthers(fat0, t, clusters, x, 0xFFFF_FFFF);
  }

  /** The loop's state when no cluster can start a new chain. */
  lemma NoClusterForNewChain(fat0: seq<byte>, t: FatType, clusters: nat, newLength: nat)
    requires Covers(t, clusters, |fat0|) && clusters + 2 <= EntryLimit(t) && newLength > 0
    requires NoFree(fat0, t, clusters)
    ensures LoopState(fat0, fat0, t, clusters, [], [], 0, newLength, 1, 0, OutOfResource)
  {
  }

  /** The loop's first state when a chain is shortened. */
  lemma StartShortening(fat0: seq<byte>, t: FatType, clusters: nat, chain: seq<nat>, newLength: nat)
    requires Covers(t, clusters, |fat0|) && clusters + 2 <= EntryLimit(t)
    requires IsChain(fat0, t, clusters, chain) && newLength < |chain|
    ensures LoopState(fat0, fat0, t, clusters, chain, chain, |chain|, newLength, 1, chain[0], NoError)
  {
  }

  /** The position the chain is to end at: its entry gets the marker. */
  lemma MarkEndStep(fat0: seq<byte>, fat: seq<byte>, fat': seq<byte>, t: FatType, clusters: nat, chain: seq<nat>,
                    ext: seq<nat>, oldLength: nat, newLength: nat, len: nat, cur: nat)
    requires Covers(t, clusters, |fat0|) && Covers(t, clusters, |fat|)
    requires LoopState(fat0, fat, t, clusters, chain, ext, oldLength, newLength, len, cur, NoError)
    requires len == newLength && fat' == Store(fat, t, clusters, cur, 0xFFFF_FFFF)
    ensures LoopState(fat0, fat', t, clusters, chain, ext, oldLength, newLength, len + 1,
                      ReadEntry(fat, t, clusters, cur), NoError)
  {
    StoreEffect(fat, t, clusters, cur, 0xFFFF_FFFF);
    if newLength > oldLength {
      GrowMarkEnd(fat0, fat, fat', t, clusters, chain, ext, newLength, cur);
    } else {
      ShrinkMarkEnd(fat0, fat', t, clusters, chain, newLength, cur);
    }
  }

  /** A lengthened chain's last cluster already holds the marker, so
      writing it again changes no entry. */
  lemma GrowMarkEnd(fat0: seq<byte>, fat: seq<byte>, fat': seq<byte>, t: FatType, clusters: nat, chain: seq<nat>,
                    ext: seq<nat>, newLength: nat, cur: nat)
    requires Covers(t, clusters, |fat0|) && Covers(t, clusters, |fat|)
    requires Covers(t, clusters, |fat'|)
    requires GrowState(fat0, fat, t, clusters, chain, ext, newLength, newLength, cur, NoError)
    requires SameExcept(fat, fat', t, clusters, cur)
    requires InFat(clusters, cur) ==> ReadEntry(fat', t, clusters, cur) == EndOfChain(t)
    ensures GrowState(fat0, fat', t, clusters, chain, ext, newLength, newLength + 1,
                      ReadEntry(fat, t, clusters, cur), NoError)
  {
    assert |ext| == newLength;
    assert cur == ext[newLength - 1];
    assert forall m :: ReadEntry(fat', t, clusters, m) == ReadEntry(fat, t, clusters, m);
  }

  /** The last kept cluster of a shortened chain gets the marker. */
  lemma ShrinkMarkEnd(fat0: seq<byte>, fat': seq<byte>, t: FatType, clusters: nat, chain: seq<nat>,
                      newLength: nat, cur: nat)
    requires Covers(t, clusters, |fat0|)
    requires IsChain(fat0, t, clusters, chain)
    requires Covers(t, clusters, |fat'|)
    requires ShrinkState(fat0, fat0, t, clusters, chain, newLength, newLength, cur)
    requires SameExcept(fat0, fat', t, clusters, cur)
    requires InFat(clusters, cur) ==> ReadEntry(fat', t, clusters, cur) == EndOfChain(t)
    ensures ShrinkState(fat0, fat', t, clusters, chain, newLength, newLength + 1,
                        ReadEntry(fat0, t, clusters, cur))
  {
    assert cur == chain[newLength - 1];
    var kept := chain[..newLength];
    forall i | 0 <= i < newLength - 1
      ensures ReadEntry(fat', t, clusters, kept[i]) == kept[i + 1]
    {
      assert chain[i] != cur;
    }
    forall k | newLength <= k < |chain|
      ensures ReadEntry(fat', t, clusters, chain[k]) == ReadEntry(fat0, t, clusters, chain[k])
    {
      assert chain[k] != cur;
    }
  }

  /** A position past the new end of a shortened chain: its cluster is
      freed, and the loop moves on to the cluster its entry named. */
  lemma FreeStep(fat0: seq<byte>, fat: seq<byte>, fat': seq<byte>, t: FatType, clusters: nat, chain: seq<nat>,
                 ext: seq<nat>, oldLength: nat, newLength: nat, len: nat, cur: nat)
    requires Covers(t, clusters, |fat0|) && Covers(t, clusters, |fat|)
    requires LoopState(fat0, fat, t, clusters, chain, ext, oldLength, newLength, len, cur, NoError)
    requires newLength < len <= Max(oldLength, newLength) && fat' == Store(fat, t, clusters, cur, 0)
    ensures LoopState(fat0, fat', t, clusters, chain, ext, oldLength, newLength, len + 1,
                      ReadEntry(fat, t, clusters, cur), NoError)
  {
    StoreEffect(fat, t, clusters, cur, 0);
    ShrinkFree(fat0, fat, fat', t, clusters, chain, newLength, len, cur);
  }

  lemma ShrinkFree(fat0: seq<byte>, fat: seq<byte>, fat': seq<byte>, t: FatType, clusters: nat, chain: seq<nat>,
                   newLength: nat, len: nat, cur: nat)
    requires Covers(t, clusters, |fat0|) && Covers(t, clusters, |fat|)
    requires IsChain(fat0, t, clusters, chain)
    requires ShrinkState(fat0, fat, t, clusters, chain, newLength, len, cur)
    requires Covers(t, clusters, |fat'|) && newLength < len <= |chain|
    requires SameExcept(fat, fat', t, clusters, cur)
    requires InFat(clusters, cur) ==> ReadEntry(fat', t, clusters, cur) == 0
    ensures ShrinkState(fat0, fat', t, clusters, chain, newLength, len + 1, ReadEntry(fat, t, clusters, cur))
  {
    assert cur == chain[len - 1];
    var kept := chain[..newLength];
    forall i | 0 <= i < newLength
      ensures ReadEntry(fat', t, clusters, kept[i]) == ReadEntry(fat, t, clusters, kept[i])
    {
      assert chain[i] != cur;
    }
    forall k | newLength <= k < len - 1
      ensures ReadEntry(fat', t, clusters, chain[k]) == 0
    {
      assert chain[k] != cur;
    }
    forall k | len <= k < |chain|
      ensures ReadEntry(fat', t, clusters, chain[k]) == ReadEntry(fat0, t, clusters, chain[k])
    {
      assert chain[k] != cur;
    }
    if len < |chain| {
      assert ReadEntry(fat, t, clusters, cur) == chain[len];
    }
  }

  /** A position before the end of the existing chain: the loop only
      follows the chain. */
  lemma WalkStep(fat0: seq<byte>, fat: seq<byte>, t: FatType, clusters: nat, chain: seq<nat>,
                 ext: seq<nat>, oldLength: nat, newLength: nat, len: nat, cur: nat)
    requires Covers(t, clusters, |fat0|) && Covers(t, clusters, |fat|)
    requires LoopState(fat0, fat, t, clusters, chain, ext, oldLength, newLength, len, cur, NoError)
    requires len < newLength && len < oldLength
    ensures LoopState(fat0, fat, t, clusters, chain, ext, oldLength, newLength, len + 1,
                      ReadEntry(fat, t, clusters, cur), NoError)
  {
    if newLength > oldLength {
      assert |ext| == oldLength && cur == ext[len - 1];
      assert ReadEntry(fat, t, clusters, ext[len - 1]) == ext[len];
    } else {
      assert ReadEntry(fat0, t, clusters, chain[len - 1]) == chain[len];
    }
  }

  /** A position inside the lengthening (corrected): the free cluster y
      found by the search is linked from the current cluster and marked as
      the new end of the chain before the next search. */
  lemma AddStep(fat0: seq<byte>, fat: seq<byte>, fat1: seq<byte>, fat2: seq<byte>, t: FatType, clusters: nat,
                chain: seq<nat>, ext: seq<nat>, oldLength: nat, newLength: nat, len: nat, cur: nat, y: nat)
    requires Covers(t, clusters, |fat0|) && Covers(t, clusters, |fat|)
    requires LoopState(fat0, fat, t, clusters, chain, ext, oldLength, newLength, len, cur, NoError)
    requires oldLength <= len < newLength
    requires InFat(clusters, y) && ReadEntry(fat, t, clusters, y) == 0
    requires fat1 == Store(fat, t, clusters, cur, y)
    requires fat2 == Store(fat1, t, clusters, y, 0xFFFF_FFFF)
    ensures LoopState(fat0, fat2, t, clusters, chain, ext + [y], oldLength, newLength, len + 1, y, NoError)
  {
    assert |ext| == len && cur == ext[len - 1];
    FreeIsOffChain(fat, t, clusters, ext, y);
    Relink(fat, fat1, fat2, t, clusters, cur, y);
    GrowAdd(fat0, fat, fat2, t, clusters, chain, ext, newLength, len, cur, y);
  }

  lemma GrowAdd(fat0: seq<byte>, fat: seq<byte>, fat': seq<byte>, t: FatType, clusters: nat,
                chain: seq<nat>, ext: seq<nat>, newLength: nat, len: nat, cur: nat, y: nat)
    requires Covers(t, clusters, |fat0|) && Covers(t, clusters, |fat|) && Covers(t, clusters, |fat'|)
    requires GrowState(fat0, fat, t, clusters, chain, ext, newLength, len, cur, NoError)
    requires |chain| <= len < newLength && |ext| == len && cur == ext[len - 1]
    requires InFat(clusters, y) && y !in ext && ReadEntry(fat, t, clusters, y) == 0
    requires ReadEntry(fat', t, clusters, cur) == y && ReadEntry(fat', t, clusters, y) == EndOfChain(t)
    requires forall m | m != cur && m != y :: ReadEntry(fat', t, clusters, m) == ReadEntry(fat, t, clusters, m)
    ensures GrowState(fat0, fat', t, clusters, chain, ext + [y], newLength, len + 1, y, NoError)
  {
    ResizedGrown(fat0, fat, fat', t, clusters, chain, ext, y);
  }

  /** The resized chain grown by the free cluster y keeps every property
      of a resized chain. */
  lemma ResizedGrown(fat0: seq<byte>, fat: seq<byte>, fat': seq<byte>, t: FatType, clusters: nat,
                     chain: seq<nat>, ext: seq<nat>, y: nat)
    requires Covers(t, clusters, |fat0|) && Covers(t, clusters, |fat|) && Covers(t, clusters, |fat'|)
    requires Resized(fat0, fat, t, clusters, chain, ext) && |chain| <= |ext| && |ext| > 0
    requires InFat(clusters, y) && y !in ext && ReadEntry(fat, t, clusters, y) == 0
    requires ReadEntry(fat', t, clusters, ext[|ext| - 1]) == y
    requires ReadEntry(fat', t, clusters, y) == EndOfChain(t)
    requires forall m | m != ext[|ext| - 1] && m != y :: ReadEntry(fat', t, clusters, m) == ReadEntry(fat, t, clusters, m)
    ensures Resized(fat0, fat', t, clusters, chain, ext + [y])
  {
    ChainExtended(fat, fat', t, clusters, ext, y);
    assert (ext + [y])[..|chain|] == ext[..|chain|];
    forall m | m in chain
      ensures m in ext
    {
      var i :| 0 <= i < |chain| && chain[i] == m;
      assert ext[i] == m;
    }
  }

  /** Linking cur to y and marking y: those two entries change, no other. */
  lemma Relink(fat: seq<byte>, fat1: seq<byte>, fat2: seq<byte>, t: FatType, clusters: nat, cur: nat, y: nat)
    requires Covers(t, clusters, |fat|) && clusters + 2 <= EntryLimit(t)
    requires InFat(clusters, cur) && InFat(clusters, y) && cur != y
    requires fat1 == Store(fat, t, clusters, cur, y)
    requires fat2 == Store(fat1, t, clusters, y, 0xFFFF_FFFF)
    ensures ReadEntry(fat2, t, clusters, cur) == y && ReadEntry(fat2, t, clusters, y) == EndOfChain(t)
    ensures forall m | m != cur && m != y :: ReadEntry(fat2, t, clusters, m) == ReadEntry(fat, t, clusters, m)
  {
    Arith.DivModUnique(y, EntryLimit(t), 0, y);
    ReadAfterWrite(fat, t, clusters, cur, y);
    StoreKeepsOthers(fat, t, clusters, cur, y);
    ReadAfterWrite(fat1, t, clusters, y, 0xFFFF_FFFF);
    StoreKeepsOthers(fat1, t, clusters, y, 0xFFFF_FFFF);
  }

  /** A chain whose last cluster now links to a new, marked cluster y is
      a chain one cluster longer. */
  lemma ChainExtended(fat: seq<byte>, fat': seq<byte>, t: FatType, clusters: nat, cs: seq<nat>, y: nat)
    requires Covers(t, clusters, |fat|) && Covers(t, clusters, |fat'|)
    requires IsChain(fat, t, clusters, cs) && |cs| > 0 && InFat(clusters, y) && y !in cs
    requires ReadEntry(fat', t, clusters, cs[|cs| - 1]) == y
    requires ReadEntry(fat', t, clusters, y) == EndOfChain(t)
    requires forall m | m != cs[|cs| - 1] && m != y :: ReadEntry(fat', t, clusters, m) == ReadEntry(fat, t, clusters, m)
    ensures IsChain(fat', t, clusters, cs + [y])
  {
    var cs' := cs + [y];
    forall i | 0 <= i < |cs'| - 1
      ensures ReadEntry(fat', t, clusters, cs'[i]) == cs'[i + 1]
    {
      if i < |cs| - 1 {
        assert cs[i] != cs[|cs| - 1];
      }
    }
  }

  /** The search found no free cluster: the loop stops with the chain as
      it stands and OUT_OF_RESOURCE. */
  lemma AddFailedStep(fat0: seq<byte>, fat: seq<byte>, t: FatType, clusters: nat, chain: seq<nat>,
                      ext: seq<nat>, oldLength: nat, newLength: nat, len: nat, cur: nat, next: nat)
    requires Covers(t, clusters, |fat0|) && Covers(t, clusters, |fat|)
    requires LoopState(fat0, fat, t, clusters, chain, ext, oldLength, newLength, len, cur, NoError)
    requires oldLength <= len < newLength && NoFree(fat, t, clusters)
    ensures LoopState(fat0, fat, t, clusters, chain, ext, oldLength, newLength, len + 1, next, OutOfResource)
  {
  }

  /** When the loop stops, the chain has the new length, or the volume
      ran out of free clusters part way through a lengthening. */
  lemma LoopFinish(fat0: seq<byte>, fat: seq<byte>, t: FatType, clusters: nat, chain: seq<nat>,
                   ext: seq<nat>, oldLength: nat, newLength: nat, len: nat, cur: nat, r: ErrCode)
    requires Covers(t, clusters, |fat0|) && Covers(t, clusters, |fat|)
    requires LoopState(fat0, fat, t, clusters, chain, ext, oldLength, newLength, len, cur, r)
    requires oldLength != newLength && !(len <= Max(oldLength, newLength) && r == NoError)
    ensures ResizeOutcome(fat0, fat, t, clusters, chain, if newLength > oldLength then ext else chain[..newLength],
                          newLength, r)
  {
    if newLength < oldLength {
      var kept := chain[..newLength];
      assert kept[..Min(|chain|, |kept|)] == chain[..Min(|chain|, |kept|)];
      forall m | m in kept
        ensures m in chain
      {
        var i :| 0 <= i < |kept| && kept[i] == m;
        assert chain[i] == m;
      }
    }
  }

  // ---------------------------------------------------------------------------
  // change_file_chain_length as written.
  // ---------------------------------------------------------------------------

  /** The loop of change_file_chain_length as written, at chain position
      len with cur the cluster there. A cluster added to the chain is
      linked from the current one but its own entry is left free until the
      loop reaches it. */
  function ChainLoopAsWritten(fat: seq<byte>, t: FatType, clusters: nat, cur: nat, len: nat,
                              oldLength: nat, newLength: nat): (r: (seq<byte>, ErrCode))
    requires Covers(t, clusters, |fat|) && clusters + 2 <= EntryLimit(t)
    ensures |r.0| == |fat|
    decreases Max(oldLength, newLength) + 1 - len
  {
    if len > Max(oldLength, newLength) then (fat, NoError)
    else if len == newLength then
      ChainLoopAsWritten(Store(fat, t, clusters, cur, 0xFFFF_FFFF), t, clusters,
                         ReadEntry(fat, t, clusters, cur), len + 1, oldLength, newLength)
    else if len > newLength then
      ChainLoopAsWritten(Store(fat, t, clusters, cur, 0), t, clusters,
                         ReadEntry(fat, t, clusters, cur), len + 1, oldLength, newLength)
    else if len >= oldLength then
      match SelectFreeAsWritten(fat, t, clusters)
      case None => (fat, OutOfResource)
      case Some(y) =>
        ChainLoopAsWritten(Store(fat, t, clusters, cur, y), t, clusters, y, len + 1, oldLength, newLength)
    else
      ChainLoopAsWritten(fat, t, clusters, ReadEntry(fat, t, clusters, cur), len + 1, oldLength, newLength)
  }

  /** change_file_chain_length as written: the table, the result and the
      start cluster it leaves. */
  function ChangeChainAsWritten(fat: seq<byte>, t: FatType, clusters: nat, start: nat,
                                oldLength: nat, newLength: nat): (r: (seq<byte>, ErrCode, nat))
    requires Covers(t, clusters, |fat|) && clusters + 2 <= EntryLimit(t)
    ensures |r.0| == |fat|
  {
    if (oldLength != 0 && !IsNormal(t, start)) || (start == 0 && oldLength != 0) then (fat, InvalidParam, start)
    else if oldLength == newLength then (fat, NoError, start)
    else if start == 0 then
      match SelectFreeAsWritten(fat, t, clusters)
      case None => (fat, OutOfResource, start)
      case Some(x) =>
        var (fat', r) := ChainLoopAsWritten(fat, t, clusters, x, 1, oldLength, newLength);
        (fat', r, x)
    else
      var (fat', r) := ChainLoopAsWritten(fat, t, clusters, start, 1, oldLength, newLength);
      (fat', r, start)
  }

  /** A new file given two clusters on a FAT16 volume with three free
      clusters: the search finds cluster 2 both times, so the loop links
      cluster 2 to itself and then marks it as the end of the chain. The
      file is left with one cluster, and no chain of two starts there. */
  lemma NewChainOfTwoGetsOneCluster()
    ensures var fat: seq<byte> := [0, 0, 0, 0, 0, 0, 0, 0, 0, 0];
      && Covers(Fat16, 3, |fat|)
      && var (fat', r, start) := ChangeChainAsWritten(fat, Fat16, 3, 0, 0, 2);
         && r == NoError && start == 2
         && ReadEntry(fat', Fat16, 3, 2) == EndOfChain(Fat16)
         && forall cs | IsChain(fat', Fat16, 3, cs) && |cs| > 0 && cs[0] == 2 :: |cs| == 1
  {
    var fat: seq<byte> := [0, 0, 0, 0, 0, 0, 0, 0, 0, 0];
    assert ReadEntry(fat, Fat16, 3, 2) == 0;
    assert FirstFreeBelow(fat, Fat16, 3, 2, 4) == Some(2);
    var fat1 := Store(fat, Fat16, 3, 2, 2);
    var fat2 := Store(fat1, Fat16, 3, 2, 0xFFFF_FFFF);
    ReadAfterWrite(fat, Fat16, 3, 2, 2);
    ReadAfterWrite(fat1, Fat16, 3, 2, 0xFFFF_FFFF);
    assert ChainLoopAsWritten(fat2, Fat16, 3, 2, 3, 0, 2) == (fat2, NoError);
    assert ChainLoopAsWritten(fat1, Fat16, 3, 2, 2, 0, 2) == (fat2, NoError);
    assert ChainLoopAsWritten(fat, Fat16, 3, 2, 1, 0, 2) == (fat2, NoError);
  }

  /** A file whose chain is empty but whose record still names cluster 2,
      which is now the whole chain of another file: as written, growing it
      to one cluster walks from cluster 2 and hands it back as the new
      file's first cluster, so the two files share it. */
  lemma StaleStartReusedAsWritten()
    ensures var fat: seq<byte> := [0, 0, 0, 0, 0xFF, 0xFF, 0, 0, 0, 0];
      && Covers(Fat16, 3, |fat|)
      && IsChain(fat, Fat16, 3, [2])
      && var (fat', r, start) := ChangeChainAsWritten(fat, Fat16, 3, 2, 0, 1);
         && r == NoError && start == 2
         && IsChain(fat', Fat16, 3, [2])
  {
    var fat: seq<byte> := [0, 0, 0, 0, 0xFF, 0xFF, 0, 0, 0, 0];
    assert ReadEntry(fat, Fat16, 3, 2) == EndOfChain(Fat16);
    var fat1 := Store(fat, Fat16, 3, 2, 0xFFFF_FFFF);
    ReadAfterWrite(fat, Fat16, 3, 2, 0xFFFF_FFFF);
    assert ChainLoopAsWritten(fat1, Fat16, 3, EndOfChain(Fat16), 2, 0, 1) == (fat1, NoError);
    assert ChainLoopAsWritten(fat, Fat16, 3, 2, 1, 0, 1) == (fat1, NoError);
  }
}
