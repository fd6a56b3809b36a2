/** A file on a FAT volume (kernel/system_tree/fs/fat/fat_file.cpp): a file
    or a directory stored as a chain of clusters of a mounted FatFilesystem.
    The object keeps an in-memory copy of its directory entry. Resizing the
    file changes its chain. An offset into the file is turned into a disk
    sector by walking the chain. */
module FatFile {
  import opened Common
  import Arith
  import opened FatFs

  /** The fields of a directory entry that the file object uses. The first
      cluster is the on-disk high and low halves put together. For a
      directory the size is the one kept in memory; on disk it is 0. */
  datatype FileRecord = FileRecord(firstCluster: nat, fileSize: u32, directory: bool)

  /** A directory holds at most 65535 entries of 32 bytes. */
  const MAX_DIRECTORY_BYTES: nat := 0xFFFF * 32

  /** The number of clusters that hold size bytes. */
  function ChainLength(size: nat, clusterBytes: nat): (n: nat)
    requires clusterBytes > 0
    ensures n == 0 <==> size == 0
    ensures n > 0 ==> (n - 1) * clusterBytes < size <= n * clusterBytes
  {
    if size == 0 then 0
    else
      var q := (size - 1) / clusterBytes;
      assert q * clusterBytes <= size - 1 < q * clusterBytes + clusterBytes;
      q + 1
  }

  /** No shorter chain holds size bytes. */
  lemma ChainLengthFewest(size: nat, clusterBytes: nat, m: nat)
    requires clusterBytes > 0 && size <= m * clusterBytes
    ensures ChainLength(size, clusterBytes) <= m
  {
    var n := ChainLength(size, clusterBytes);
    if m < n {
      Arith.MulMono(clusterBytes, m, n - 1);
    }
  }

  /** The size a directory is given: whole clusters, the fewest that hold
      size bytes. */
  function DirectorySize(size: nat, clusterBytes: nat): (r: nat)
    requires clusterBytes > 0
    ensures r % clusterBytes == 0 && size <= r
    ensures size > 0 ==> r < size + clusterBytes
    ensures ChainLength(r, clusterBytes) == ChainLength(size, clusterBytes)
  {
    var n := ChainLength(size, clusterBytes);
    Arith.MulMod(clusterBytes, n);
    ChainOfWholeClusters(n, clusterBytes);
    n * clusterBytes
  }

  /** n whole clusters take a chain of n clusters. */
  lemma ChainOfWholeClusters(n: nat, clusterBytes: nat)
    requires clusterBytes > 0
    ensures ChainLength(n * clusterBytes, clusterBytes) == n
  {
    var k := ChainLength(n * clusterBytes, clusterBytes);
    ChainLengthFewest(n * clusterBytes, clusterBytes, n);
    if k < n {
      Arith.MulMono(clusterBytes, k, n - 1);
    }
  }

  /** The checks at the start of read_bytes: there is a buffer, the range
      lies inside the file, and the buffer can take it. The separate checks
      on start and length keep start + length from wrapping around. */
  function ReadBytesCheck(hasBuffer: bool, start: u64, length: u64, bufferLength: u64, fileSize: u32): (r: ErrCode)
    ensures r == NoError <==> hasBuffer && start + length <= fileSize && length <= bufferLength
    ensures r != NoError ==> r == InvalidParam
  {
    if !hasBuffer || start > fileSize || length > fileSize || Wrap64(start + length) > fileSize
       || length > bufferLength
    then InvalidParam
    else NoError
  }

  /** The record set_file_size_no_write keeps after a successful resize,
      as written: the first cluster is whatever change_file_chain_length
      hands back, whatever the new length. */
  function RecordAfterResizeAsWritten(rec: FileRecord, start: nat, size: u32): FileRecord
  {
    FileRecord(start, size, rec.directory)
  }

  /** When a file is cut to nothing, change_file_chain_length hands back
      the start cluster it was given, and as written set_file_size_no_write
      keeps it as the file's first cluster. That cluster is free by then,
      and the chain left is empty, whose first cluster should be 0. */
  lemma TruncatedStartIsFree(fat0: seq<byte>, fat: seq<byte>, t: FatType, clusters: nat,
                             chain: seq<nat>, cs': seq<nat>, rec: FileRecord)
    requires Covers(t, clusters, |fat0|) && Covers(t, clusters, |fat|)
    requires IsChain(fat0, t, clusters, chain) && |chain| > 0
    requires ResizeOutcome(fat0, fat, t, clusters, chain, cs', 0, NoError)
    ensures var rec' := RecordAfterResizeAsWritten(rec, chain[0], 0);
      && cs' == [] && rec'.fileSize == 0 && rec'.firstCluster == chain[0] != 0
      && InFat(clusters, rec'.firstCluster) && ReadEntry(fat, t, clusters, rec'.firstCluster) == 0
  {
    assert |cs'| <= 0 < |chain|;
  }

  /** fat_file: one file or directory of a mounted volume. */
  class FatFile {
    var record: FileRecord
    const isSmallRootDir: bool
    const fs: FatFilesystem
    /** The file's clusters in order: empty for an empty file and for the
        root directory of a FAT12 or FAT16 volume. */
    ghost var chain: seq<nat>

    function ClusterBytes(): nat
    {
      fs.bytesPerSec * fs.secsPerCluster
    }

    /** Every cluster number of the volume is normal, and the record
        describes the file's chain: it starts at the first cluster and is
        as long as the size needs. */
    ghost predicate Valid()
      reads this, fs.rawFat
    {
      && fs.Valid() && fs.bytesPerSec > 0
      && fs.numberOfClusters + 1 <= MaxNormal(fs.fatType)
      && (isSmallRootDir ==> chain == [] && record.firstCluster == 0)
      && (!isSmallRootDir ==>
            && IsChain(fs.rawFat[..], fs.fatType, fs.numberOfClusters, chain)
            && |chain| == ChainLength(record.fileSize, ClusterBytes())
            && record.firstCluster == (if chain == [] then 0 else chain[0]))
    }

    /** The constructor. The root directory of a FAT12 or FAT16 volume
        lies outside the data area; its size is that of the root area. The
        size of any other directory is found by walking its chain. A plain
        file keeps the size its directory entry gives. */
    constructor (rec: FileRecord, volume: FatFilesystem, rootDirectory: bool, ghost clusters: seq<nat>)
      requires volume.Valid() && volume.bytesPerSec > 0
      requires volume.numberOfClusters + 1 <= MaxNormal(volume.fatType)
      requires !(rootDirectory && volume.fatType != Fat32) ==>
        && IsChain(volume.rawFat[..], volume.fatType, volume.numberOfClusters, clusters)
        && rec.firstCluster == (if clusters == [] then 0 else clusters[0])
      requires !(rec.directory || rootDirectory) ==>
        |clusters| == ChainLength(rec.fileSize, volume.bytesPerSec * volume.secsPerCluster)
      requires rootDirectory && volume.fatType != Fat32 ==>
        volume.rootDirSectorCount * volume.bytesPerSec <= UINT32_MAX
      requires (rec.directory || rootDirectory) && !(rootDirectory && volume.fatType != Fat32) ==>
        |clusters| * (volume.bytesPerSec * volume.secsPerCluster) <= UINT32_MAX
      ensures fs == volume && isSmallRootDir == (rootDirectory && volume.fatType != Fat32)
      ensures isSmallRootDir ==>
        record == FileRecord(0, volume.rootDirSectorCount * volume.bytesPerSec, true) && chain == []
      ensures !isSmallRootDir && (rec.directory || rootDirectory) ==>
        && record == FileRecord(rec.firstCluster, |clusters| * ClusterBytes(), true)
        && chain == clusters
      ensures !(rec.directory || rootDirectory) ==> record == rec && chain == clusters
      ensures Valid()
    {
      fs := volume;
      isSmallRootDir := rootDirectory && volume.fatType != Fat32;
      var r := rec;
      if rec.directory || rootDirectory {
        r := r.(directory := true);
        if rootDirectory && volume.fatType != Fat32 {
          r := r.(firstCluster := 0, fileSize := volume.rootDirSectorCount * volume.bytesPerSec);
          chain := [];
        } else {
          var count := 0;
          var n := rec.firstCluster;
          NotNormal(volume.fatType, n);
          while IsNormal(volume.fatType, n)
            invariant count <= |clusters|
            invariant count < |clusters| ==> n == clusters[count] && IsNormal(volume.fatType, n)
            invariant count == |clusters| ==> !IsNormal(volume.fatType, n)
            decreases |clusters| - count
          {
            n := ReadEntry(volume.rawFat[..], volume.fatType, volume.numberOfClusters, n);
            count := count + 1;
            NotNormal(volume.fatType, n);
          }
          var bytes := volume.bytesPerSec * volume.secsPerCluster;
          var size := count * bytes;
          r := r.(fileSize := size);
          chain := clusters;
          ChainOfWholeClusters(count, bytes);
        }
      } else {
        chain := clusters;
      }
      record := r;
    }

    /** set_file_size_no_write: the file's chain is cut or extended to the
        clusters the new size needs, without writing any data. The root
        directory of a FAT12 or FAT16 volume cannot be resized; sizes above
        4GiB are refused, as are directories above 65535 entries. A
        directory's size is rounded up to whole clusters. On success the
        record takes the new size and first cluster, and is written to the
        parent folder (whose answer, folderStatus, becomes the result). The
        record written has size 0 for a directory. When the chain becomes
        empty the first cluster becomes 0; the source keeps the old, now
        free, one (TruncatedStartIsFree), and a later resize grows the file
        from it (StaleStartReusedAsWritten). */
    method SetFileSizeNoWrite(fileSize: u64, folderStatus: ErrCode)
      returns (r: ErrCode, written: FileRecord, chainResult: ErrCode)
      requires Valid()
      modifies this, fs.rawFat, fs`fatDirty
      ensures isSmallRootDir ==> r == InvalidOp
      ensures !isSmallRootDir && fileSize > UINT32_MAX ==> r == InvalidParam
      ensures !isSmallRootDir && fileSize <= UINT32_MAX && record.directory && fileSize > MAX_DIRECTORY_BYTES ==>
        r == InvalidParam
      ensures old(Refused(fileSize)) ==>
        record == old(record) && chain == old(chain) && fs.rawFat[..] == old(fs.rawFat[..])
      ensures !old(Refused(fileSize)) ==>
        var size := old(NewSize(fileSize));
        && ResizeOutcome(old(fs.rawFat[..]), fs.rawFat[..], fs.fatType, fs.numberOfClusters, old(chain), chain,
                         ChainLength(size, ClusterBytes()), chainResult)
        && (chainResult == NoError ==>
              && r == folderStatus
              && record == FileRecord(if chain == [] then 0 else chain[0], size, old(record.directory))
              && written == record.(fileSize := if record.directory then 0 else size)
              && Valid())
        && (chainResult != NoError ==> r == chainResult && record == old(record))
    {
      chainResult := NoError;
      written := record;
      if isSmallRootDir {
        return InvalidOp, written, chainResult;
      }
      if fileSize > UINT32_MAX {
        return InvalidParam, written, chainResult;
      }
      if record.directory && fileSize > MAX_DIRECTORY_BYTES {
        return InvalidParam, written, chainResult;
      }
      var size := NewSize(fileSize);
      var newLength := ChainLength(size, ClusterBytes());
      var start;
      chainResult, start := ResizeChain(newLength);
      if chainResult == NoError {
        if newLength == 0 {
          start := 0;
        }
        record := FileRecord(start, size, record.directory);
        written := record.(fileSize := if record.directory then 0 else size);
        r := folderStatus;
      } else {
        r := chainResult;
      }
    }

    /** The chain part of set_file_size_no_write: the chain is brought to
        newLength clusters when it has a different length, and the first
        cluster change_file_chain_length hands back is returned. */
    method ResizeChain(newLength: nat) returns (chainResult: ErrCode, start: nat)
      requires Valid() && !isSmallRootDir
      modifies this`chain, fs.rawFat, fs`fatDirty
      ensures ResizeOutcome(old(fs.rawFat[..]), fs.rawFat[..], fs.fatType, fs.numberOfClusters, old(chain), chain,
                            newLength, chainResult)
      ensures |chain| > 0 ==> start == chain[0]
    {
      var oldLength := ChainLength(record.fileSize, ClusterBytes());
      start := record.firstCluster;
      if newLength != oldLength {
        assert chain != [] ==> InFat(fs.numberOfClusters, chain[0]);
        ghost var cs';
        chainResult, start, cs' := fs.ChangeFileChainLength(start, oldLength, newLength, chain);
        chain := cs';
      } else {
        chainResult := NoError;
        ResizeNothing(fs.rawFat[..], fs.fatType, fs.numberOfClusters, chain);
      }
    }

    /** Whether set_file_size_no_write refuses a size before touching the
        chain. */
    predicate Refused(fileSize: u64)
      reads this
    {
      isSmallRootDir || fileSize > UINT32_MAX || (record.directory && fileSize > MAX_DIRECTORY_BYTES)
    }

    /** The size set_file_size_no_write gives the file: rounded up to whole
        clusters for a directory. */
    function NewSize(fileSize: u64): (size: u32)
      requires !Refused(fileSize) && fs.bytesPerSec > 0 && fs.secsPerCluster > 0
      reads this
      ensures !record.directory ==> size == fileSize
      ensures record.directory ==> size == if fileSize == 0 then 0 else DirectorySize(fileSize, ClusterBytes())
    {
      if record.directory && fileSize > 0 then
        assert ClusterBytes() <= 0xFFFF * 0xFF by {
          Arith.MulMono(fs.bytesPerSec, fs.secsPerCluster, 0xFF);
          Arith.MulMono(0xFF, fs.bytesPerSec, 0xFFFF);
        }
        DirectorySize(fileSize, ClusterBytes())
      else fileSize
    }

    /** get_disk_sector_from_offset: the disk sector holding a given
        sector of the file. For the root directory of a FAT12 or FAT16
        volume this is the root area's first sector plus the offset, with
        no check. Otherwise the chain is walked to the cluster holding the
        sector; the answer is valid exactly when the file has that
        cluster. */
    method GetDiskSectorFromOffset(sectorOffset: u64) returns (ok: bool, diskSector: u64)
      requires Valid()
      ensures isSmallRootDir ==> ok && diskSector == Wrap64(fs.rootDirStartSector + sectorOffset)
      ensures !isSmallRootDir ==> (ok <==> sectorOffset / fs.secsPerCluster < |chain|)
      ensures !isSmallRootDir && ok ==>
        diskSector == fs.ClusterToSector(chain[sectorOffset / fs.secsPerCluster]) + sectorOffset % fs.secsPerCluster
    {
      if isSmallRootDir {
        return true, Wrap64(fs.rootDirStartSector + sectorOffset);
      }
      var clusterOffset := sectorOffset / fs.secsPerCluster;
      var remainder := sectorOffset % fs.secsPerCluster;
      Arith.ModBelow(sectorOffset, fs.secsPerCluster);
      var current;
      ok, current := WalkTo(clusterOffset);
      assert chain != [] ==> InFat(fs.numberOfClusters, chain[0]);
      var first := fs.ClusterToSector(current);
      if first == UINT64_MAX {
        ok := false;
      }
      if IsNormal(fs.fatType, current) {
        Arith.MulMono(fs.secsPerCluster, current - 2, 0x1000_0000);
      }
      diskSector := Wrap64(first + remainder);
    }

    /** The walk of get_disk_sector_from_offset: clusterOffset links along
        the chain from the first cluster, stopping at the first entry that
        is not a normal cluster number. */
    method WalkTo(clusterOffset: nat) returns (ok: bool, current: nat)
      requires Valid() && !isSmallRootDir
      ensures ok <==> clusterOffset < |chain| || (chain == [] && clusterOffset == 0)
      ensures ok && chain == [] ==> current == 0
      ensures ok && chain != [] ==> current == chain[clusterOffset]
    {
      current := record.firstCluster;
      ok := true;
      var i := 0;
      ghost var fat := fs.rawFat[..];
      while i < clusterOffset
        invariant i <= clusterOffset
        invariant chain == [] ==> current == 0 && i == 0
        invariant chain != [] ==> i < |chain| && current == chain[i]
      {
        var next := ReadEntry(fs.rawFat[..], fs.fatType, fs.numberOfClusters, current);
        ChainLink(fat, fs.fatType, fs.numberOfClusters, chain, i);
        if !IsNormal(fs.fatType, next) {
          ok := false;
          break;
        }
        current := next;
        i := i + 1;
      }
    }
  }

  /** Following a chain: the entry of its i-th cluster is a normal cluster
      number exactly when a cluster follows, and then it is that cluster.
      The entry of cluster 0, where an empty file starts, is free. */
  lemma ChainLink(fat: seq<byte>, t: FatType, clusters: nat, chain: seq<nat>, i: nat)
    requires Covers(t, clusters, |fat|) && clusters + 1 <= MaxNormal(t)
    requires IsChain(fat, t, clusters, chain)
    ensures i < |chain| ==>
      var next := ReadEntry(fat, t, clusters, chain[i]);
      && (IsNormal(t, next) <==> i + 1 < |chain|)
      && (i + 1 < |chain| ==> next == chain[i + 1])
    ensures !IsNormal(t, ReadEntry(fat, t, clusters, 0))
  {
    NotNormal(t, 0);
    if i + 1 < |chain| {
      NotNormal(t, chain[i + 1]);
    } else if i < |chain| {
      NotNormal(t, EndOfChain(t));
    }
  }

  /** A chain left at its length is its own resizing. */
  lemma ResizeNothing(fat: seq<byte>, t: FatType, clusters: nat, chain: seq<nat>)
    requires Covers(t, clusters, |fat|) && IsChain(fat, t, clusters, chain)
    ensures ResizeOutcome(fat, fat, t, clusters, chain, chain, |chain|, NoError)
  {
  }
}
