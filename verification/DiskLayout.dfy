/**
  A FAT12 floppy disk: what an image holding a list of files consists of, and how a
  system that knows only the image finds the files again.
 */
module DiskLayout {
  import opened Bytes
  import opened Fat12
  import opened DiskNames

  const SECTOR_SIZE: nat := 512
  const TOTAL_SECTORS: nat := 2880
  const RESERVED: nat := 1
  const FATS: nat := 2
  const SECTORS_PER_FAT: nat := 9
  const ROOT_ENTRIES: nat := 224
  const ROOT_SECTORS: nat := 14
  const DATA_START: nat := RESERVED + FATS * SECTORS_PER_FAT + ROOT_SECTORS
  const DATA_CLUSTERS: nat := TOTAL_SECTORS - DATA_START
  const FIXED_DATE: nat := (1991 - 1980) * 512 + 6 * 32 + 11
  const FIXED_TIME: nat := 0

  const IMAGE_SIZE: nat := SECTOR_SIZE * TOTAL_SECTORS
  const FAT_SIZE: nat := SECTOR_SIZE * SECTORS_PER_FAT
  const ROOT_SIZE: nat := SECTOR_SIZE * ROOT_SECTORS
  const FAT_AT: nat := SECTOR_SIZE * RESERVED
  const ROOT_AT: nat := SECTOR_SIZE * (RESERVED + FATS * SECTORS_PER_FAT)
  const DATA_AT: nat := SECTOR_SIZE * DATA_START

  // A file as a disk stores it.
  datatype Record = Record(name: NameField, data: seq<byte>, attributes: byte)

  function Zeros(n: nat): (r: seq<byte>)
    ensures |r| == n && forall i | 0 <= i < n :: r[i] == 0
  {
    seq(n, _ => 0)
  }

  function Clusters(size: nat): (n: nat)
    ensures n * 512 >= size && (n > 0 ==> (n - 1) * 512 < size)
  {
    (size + 511) / 512
  }

  // ----- what an image consists of

  // The clusters of the first m files.
  function Used(files: seq<Record>, m: nat): nat
    requires m <= |files|
  {
    if m == 0 then 0 else Used(files, m - 1) + Clusters(|files[m - 1].data|)
  }

  // The first cluster of a file, as its directory entry gives it.
  function First(files: seq<Record>, i: nat): nat
    requires i < |files|
  {
    if files[i].data == [] then 0 else 2 + Used(files, i)
  }

  // A file's bytes, up to a whole number of sectors.
  function Padded(data: seq<byte>): (r: seq<byte>)
    ensures |r| == 512 * Clusters(|data|) && data <= r
  {
    data + Zeros(512 * Clusters(|data|) - |data|)
  }

  function Area(files: seq<Record>, m: nat): (r: seq<byte>)
    requires m <= |files|
    ensures |r| == 512 * Used(files, m)
  {
    if m == 0 then [] else Area(files, m - 1) + Padded(files[m - 1].data)
  }

  // The table entry of cluster number i of a chain of n that starts at `first`.
  function Link(first: nat, n: nat, i: nat): nat {
    if i + 1 == n then 0xFFF else first + i + 1
  }

  function Chain(first: nat, n: nat): (r: seq<nat>)
    ensures |r| == n && forall i | 0 <= i < n :: r[i] == Link(first, n, i)
  {
    seq(n, i requires 0 <= i => Link(first, n, i))
  }

  function Chains(files: seq<Record>, m: nat): (r: seq<nat>)
    requires m <= |files|
    ensures |r| == Used(files, m)
  {
    if m == 0 then [] else Chains(files, m - 1) + Chain(2 + Used(files, m - 1), Clusters(|files[m - 1].data|))
  }

  // The table holds these entries, and zeros after them.
  ghost predicate Table(fat: seq<byte>, entries: seq<nat>) {
    |fat| == FAT_SIZE &&
    forall c: nat | InFat(fat, c) :: GetEntry(fat, c) == if c < |entries| then entries[c] else 0
  }

  const RESERVED_ENTRIES: seq<nat> := [0xFF0, 0xFFF]

  function DirEntry(name: NameField, attributes: byte, first: nat, size: nat): (r: seq<byte>)
    requires first < 0x1_0000 && size < 0x1_0000_0000
    ensures |r| == 32
  {
    name + [attributes] + Zeros(10) + Le16(FIXED_TIME) + Le16(FIXED_DATE) + Le16(first) + Le32(size)
  }

  predicate Fitting(files: seq<Record>, m: nat) {
    m <= |files| && Used(files, m) <= DATA_CLUSTERS
  }

  lemma {:induction false} UsedBefore(files: seq<Record>, m: nat, n: nat)
    requires m <= n <= |files|
    ensures Used(files, m) <= Used(files, n)
  {
    if m < n {
      UsedBefore(files, m, n - 1);
    }
  }

  lemma {:induction false} FittingBefore(files: seq<Record>, i: nat, n: nat)
    requires Fitting(files, n) && i < n
    ensures Fitting(files, i) && Used(files, i) + Clusters(|files[i].data|) <= DATA_CLUSTERS
  {
    UsedBefore(files, i, n);
    UsedBefore(files, i + 1, n);
  }

  function EntryFor(files: seq<Record>, i: nat): (r: seq<byte>)
    requires i < |files| && Used(files, i) + Clusters(|files[i].data|) <= DATA_CLUSTERS
    ensures |r| == 32
  {
    DirEntry(files[i].name, files[i].attributes, First(files, i), |files[i].data|)
  }

  function Root(files: seq<Record>, m: nat): (r: seq<byte>)
    requires Fitting(files, m)
    ensures |r| == 32 * m
  {
    if m == 0 then [] else
      FittingBefore(files, m - 1, m);
      Root(files, m - 1) + EntryFor(files, m - 1)
  }

  // The fields before the volume's serial number.
  function Geometry(boot: seq<byte>): (r: seq<byte>)
    requires |boot| == SECTOR_SIZE
    ensures |r| == 37
  {
    boot[..11] + Le16(SECTOR_SIZE) + [1] + Le16(RESERVED) + [FATS] + Le16(ROOT_ENTRIES) + Le16(TOTAL_SECTORS)
    + [0xF0] + Le16(SECTORS_PER_FAT) + Le16(18) + Le16(2) + Le32(0) + Le32(0) + [0]
  }

  // The boot sector, its parameter block replaced.
  function BootSector(boot: seq<byte>, volume: string, serial: nat): (r: seq<byte>)
    requires |boot| == SECTOR_SIZE && Ascii(volume) && |volume| <= 11 && serial < 0x1_0000_0000
    ensures |r| == SECTOR_SIZE
  {
    Geometry(boot) + boot[37..38] + [0x29] + Le32(serial)
    + AsciiBytes(PadRight(volume, 11)) + AsciiBytes("FAT12   ") + boot[62..510] + [0x55, 0xAA]
  }

  function LabelEntry(volume: string): (r: seq<byte>)
    requires Ascii(volume) && |volume| <= 11
    ensures |r| == 32
  {
    DirEntry(AsciiBytes(PadRight(volume, 11)), 0x08, 0, 0)
  }

  function FatCopy(image: seq<byte>, copy: nat): (r: seq<byte>)
    requires |image| == IMAGE_SIZE && copy < FATS
    ensures |r| == FAT_SIZE
  {
    image[FAT_AT + FAT_SIZE * copy..FAT_AT + FAT_SIZE * (copy + 1)]
  }

  datatype Disk = Disk(files: seq<Record>, boot: seq<byte>, volume: string, serial: int)

  predicate Proper(disk: Disk) {
    Fitting(disk.files, |disk.files|) && |disk.files| < ROOT_ENTRIES && |disk.boot| == SECTOR_SIZE
    && Ascii(disk.volume) && 0 <= disk.serial < 0x1_0000_0000
  }

  ghost predicate TablesHold(image: seq<byte>, files: seq<Record>)
    requires |image| == IMAGE_SIZE
  {
    FatCopy(image, 0) == FatCopy(image, 1)
    && Table(FatCopy(image, 0), RESERVED_ENTRIES + Chains(files, |files|))
  }

  ghost predicate DirectoryHolds(image: seq<byte>, files: seq<Record>, volume: string)
    requires |image| == IMAGE_SIZE && Fitting(files, |files|) && |files| < ROOT_ENTRIES && Ascii(volume)
    requires |volume| <= 11
  {
    image[ROOT_AT..DATA_AT] == Root(files, |files|) + LabelEntry(volume) + Zeros(ROOT_SIZE - 32 * (|files| + 1))
  }

  ghost predicate DataHolds(image: seq<byte>, files: seq<Record>)
    requires |image| == IMAGE_SIZE && Fitting(files, |files|)
  {
    image[DATA_AT..] == Area(files, |files|) + Zeros(IMAGE_SIZE - DATA_AT - 512 * Used(files, |files|))
  }

  ghost predicate Holds(image: seq<byte>, disk: Disk) {
    Proper(disk) && |disk.volume| <= 11 && |image| == IMAGE_SIZE
    && image[..FAT_AT] == BootSector(disk.boot, disk.volume, disk.serial)
    && TablesHold(image, disk.files) && DirectoryHolds(image, disk.files, disk.volume) && DataHolds(image, disk.files)
  }

  // ----- reading a disk

  function Entry(image: seq<byte>, i: nat): (r: seq<byte>)
    requires |image| == IMAGE_SIZE && i < ROOT_ENTRIES
    ensures |r| == 32
  {
    image[ROOT_AT + 32 * i..ROOT_AT + 32 * i + 32]
  }

  // The first cluster and the size that directory entry i gives.
  function FirstField(image: seq<byte>, i: nat): nat
    requires |image| == IMAGE_SIZE && i < ROOT_ENTRIES
  {
    FromLe16(Entry(image, i)[26..28])
  }

  function SizeField(image: seq<byte>, i: nat): nat
    requires |image| == IMAGE_SIZE && i < ROOT_ENTRIES
  {
    FromLe32(Entry(image, i)[28..32])
  }

  function Sector(image: seq<byte>, cluster: nat): seq<byte>
    requires |image| == IMAGE_SIZE
  {
    if 2 <= cluster < DATA_CLUSTERS + 2 then
      var at := DATA_AT + 512 * (cluster - 2);
      image[at..at + SECTOR_SIZE]
    else []
  }

  function Sectors(image: seq<byte>, clusters: seq<nat>): seq<byte>
    requires |image| == IMAGE_SIZE
  {
    if clusters == [] then [] else Sector(image, clusters[0]) + Sectors(image, clusters[1..])
  }

  // The clusters of directory entry i, as the table links them.
  function ClustersOf(image: seq<byte>, i: nat): seq<nat>
    requires |image| == IMAGE_SIZE && i < ROOT_ENTRIES
  {
    Follow(FatCopy(image, 0), FirstField(image, i), |image|)
  }

  function ReadFile(image: seq<byte>, i: nat): seq<byte>
    requires |image| == IMAGE_SIZE && i < ROOT_ENTRIES
  {
    var bytes, size := Sectors(image, ClustersOf(image, i)), SizeField(image, i);
    if size <= |bytes| then bytes[..size] else bytes
  }

  // ----- what is read is what was put there

  lemma {:induction false} PrefixSlice<T>(a: seq<T>, b: seq<T>, c: seq<T>, s: seq<T>)
    requires a + b == c && c <= s
    ensures s[|a|..|c|] == b
  {
    assert s[|a|..|c|] == c[|a|..];
  }

  lemma {:induction false} RootBefore(files: seq<Record>, m: nat, n: nat)
    requires Fitting(files, n) && m <= n
    ensures Fitting(files, m) && Root(files, m) <= Root(files, n)
  {
    if m < n {
      FittingBefore(files, n - 1, n);
      RootBefore(files, m, n - 1);
    }
  }

  lemma {:induction false} AreaBefore(files: seq<Record>, m: nat, n: nat)
    requires m <= n <= |files|
    ensures Area(files, m) <= Area(files, n) && Chains(files, m) <= Chains(files, n)
  {
    if m < n {
      AreaBefore(files, m, n - 1);
      LongerPrefix(Area(files, m), Area(files, n - 1), Padded(files[n - 1].data));
      var chain := Chain(2 + Used(files, n - 1), Clusters(|files[n - 1].data|));
      LongerPrefix(Chains(files, m), Chains(files, n - 1), chain);
    }
  }

  lemma {:induction false} LongerPrefix<T>(a: seq<T>, b: seq<T>, c: seq<T>)
    requires a <= b
    ensures a <= b + c
  {
  }

  lemma {:induction false} FileInRoot(files: seq<Record>, i: nat)
    requires Fitting(files, |files|) && i < |files|
    ensures Used(files, i) + Clusters(|files[i].data|) <= DATA_CLUSTERS
    ensures Root(files, |files|)[32 * i..32 * i + 32] == EntryFor(files, i)
  {
    FittingBefore(files, i, |files|);
    RootBefore(files, i + 1, |files|);
    PrefixSlice(Root(files, i), EntryFor(files, i), Root(files, i + 1), Root(files, |files|));
  }

  lemma {:induction false} FileInArea(files: seq<Record>, i: nat)
    requires i < |files|
    ensures Used(files, i) + Clusters(|files[i].data|) <= Used(files, |files|)
    ensures var at := 512 * Used(files, i);
      Area(files, |files|)[at..at + 512 * Clusters(|files[i].data|)] == Padded(files[i].data)
  {
    UsedBefore(files, i + 1, |files|);
    AreaBefore(files, i + 1, |files|);
    PrefixSlice(Area(files, i), Padded(files[i].data), Area(files, i + 1), Area(files, |files|));
  }

  lemma {:induction false} FileInChains(files: seq<Record>, i: nat)
    requires i < |files|
    ensures Used(files, i) + Clusters(|files[i].data|) <= Used(files, |files|)
    ensures Chains(files, |files|)[Used(files, i)..Used(files, i) + Clusters(|files[i].data|)]
      == Chain(2 + Used(files, i), Clusters(|files[i].data|))
  {
    UsedBefore(files, i + 1, |files|);
    AreaBefore(files, i + 1, |files|);
    var chain := Chain(2 + Used(files, i), Clusters(|files[i].data|));
    PrefixSlice(Chains(files, i), chain, Chains(files, i + 1), Chains(files, |files|));
  }

  lemma {:induction false} DirEntryFields(name: NameField, attributes: byte, first: nat, size: nat)
    requires first < 0x1_0000 && size < 0x1_0000_0000
    ensures var e := DirEntry(name, attributes, first, size);
      e[..11] == name && e[11] == attributes && FromLe16(e[26..28]) == first && FromLe32(e[28..32]) == size
  {
    var e := DirEntry(name, attributes, first, size);
    assert e[..11] == name && e[26..28] == Le16(first) && e[28..32] == Le32(size);
    Le16RoundTrip(first);
    Le32RoundTrip(size);
  }

  lemma {:induction false} EntryOfFile(image: seq<byte>, disk: Disk, i: nat)
    requires Holds(image, disk) && i < |disk.files|
    ensures Used(disk.files, i) + Clusters(|disk.files[i].data|) <= DATA_CLUSTERS
    ensures Entry(image, i) == EntryFor(disk.files, i)
  {
    FileInRoot(disk.files, i);
    EntryInDirectory(image, image[ROOT_AT..DATA_AT], Root(disk.files, |disk.files|), i);
  }

  lemma {:induction false} EntryInDirectory(image: seq<byte>, directory: seq<byte>, root: seq<byte>, i: nat)
    requires |image| == IMAGE_SIZE && i < ROOT_ENTRIES && directory == image[ROOT_AT..DATA_AT]
    requires root <= directory && 32 * i + 32 <= |root|
    ensures Entry(image, i) == root[32 * i..32 * i + 32]
  {
    var at := 32 * i;
    assert directory[at..at + 32] == root[at..at + 32];
    assert directory[at..at + 32] == image[ROOT_AT + at..ROOT_AT + at + 32];
  }

  lemma {:induction false} FileChain(fat: seq<byte>, files: seq<Record>, i: nat)
    requires Table(fat, RESERVED_ENTRIES + Chains(files, |files|)) && Used(files, |files|) <= DATA_CLUSTERS
    requires i < |files|
    ensures ChainAt(fat, 2 + Used(files, i), Clusters(|files[i].data|))
  {
    FileInChains(files, i);
    ChainInTable(fat, Chains(files, |files|), Used(files, i), Clusters(|files[i].data|));
  }

  lemma {:induction false} ChainInTable(fat: seq<byte>, chains: seq<nat>, at: nat, n: nat)
    requires Table(fat, RESERVED_ENTRIES + chains) && at + n <= |chains| <= DATA_CLUSTERS
    requires chains[at..at + n] == Chain(2 + at, n)
    ensures ChainAt(fat, 2 + at, n)
  {
    forall c | 2 + at <= c < 2 + at + n
      ensures InFat(fat, c) && GetEntry(fat, c) == if c + 1 == 2 + at + n then 0xFFF else c + 1
    {
      assert chains[at..at + n][c - 2 - at] == Chain(2 + at, n)[c - 2 - at];
    }
  }

  // The consecutive clusters of a file.
  function Run(first: nat, n: nat): (r: seq<nat>)
    ensures |r| == n && forall j | 0 <= j < n :: r[j] == first + j
  {
    seq(n, j requires 0 <= j => first + j)
  }

  lemma {:induction false} RunMembers(first: nat, n: nat, c: nat)
    ensures c in Run(first, n) <==> first <= c < first + n
  {
    if first <= c < first + n {
      assert Run(first, n)[c - first] == c;
    }
  }

  // The clusters a file has on a disk.
  function RunOf(files: seq<Record>, i: nat): seq<nat>
    requires i < |files|
  {
    Run(2 + Used(files, i), Clusters(|files[i].data|))
  }

  lemma {:induction false} FieldsOfFile(image: seq<byte>, disk: Disk, i: nat)
    requires Holds(image, disk) && i < |disk.files|
    ensures Used(disk.files, i) + Clusters(|disk.files[i].data|) <= DATA_CLUSTERS
    ensures FirstField(image, i) == First(disk.files, i) && SizeField(image, i) == |disk.files[i].data|
    ensures Entry(image, i)[..11] == disk.files[i].name && Entry(image, i)[11] == disk.files[i].attributes
  {
    var file := disk.files[i];
    EntryOfFile(image, disk, i);
    DirEntryFields(file.name, file.attributes, First(disk.files, i), |file.data|);
  }

  lemma {:induction false} ClustersOfFile(image: seq<byte>, disk: Disk, i: nat)
    requires Holds(image, disk) && i < |disk.files|
    ensures ClustersOf(image, i) == RunOf(disk.files, i)
  {
    FieldsOfFile(image, disk, i);
    FileFollowed(FatCopy(image, 0), disk.files, i, |image|);
  }

  lemma {:induction false} FileFollowed(fat: seq<byte>, files: seq<Record>, i: nat, steps: nat)
    requires Table(fat, RESERVED_ENTRIES + Chains(files, |files|)) && Used(files, |files|) <= DATA_CLUSTERS < steps
    requires i < |files|
    ensures Follow(fat, First(files, i), steps) == RunOf(files, i)
  {
    FileChain(fat, files, i);
    FileInChains(files, i);
    RunFollowed(fat, Used(files, i), Clusters(|files[i].data|), steps);
  }

  lemma {:induction false} RunFollowed(fat: seq<byte>, at: nat, n: nat, steps: nat)
    requires ChainAt(fat, 2 + at, n) && at + n <= DATA_CLUSTERS && n < steps
    ensures Follow(fat, if n == 0 then 0 else 2 + at, steps) == Run(2 + at, n)
  {
    if n > 0 {
      FollowChain(fat, 2 + at, n, steps);
    }
  }

  // The bytes of n sectors from one cluster on.
  function Extent(image: seq<byte>, first: nat, n: nat): (r: seq<byte>)
    requires |image| == IMAGE_SIZE && 2 <= first && first + n <= DATA_CLUSTERS + 2
    ensures |r| == 512 * n
  {
    var at := DATA_AT + 512 * (first - 2);
    image[at..at + 512 * n]
  }

  lemma {:induction false} ExtentSplit(image: seq<byte>, first: nat, n: nat)
    requires |image| == IMAGE_SIZE && 2 <= first && n > 0 && first + n <= DATA_CLUSTERS + 2
    ensures Sector(image, first) + Extent(image, first + 1, n - 1) == Extent(image, first, n)
  {
    var at := DATA_AT + 512 * (first - 2);
    SlicesJoin(image, at, at + 512, at + 512 * n);
  }

  lemma {:induction false} SectorsOfRun(image: seq<byte>, first: nat, n: nat)
    requires |image| == IMAGE_SIZE && 2 <= first && first + n <= DATA_CLUSTERS + 2
    ensures Sectors(image, Run(first, n)) == Extent(image, first, n)
    decreases n
  {
    if n > 0 {
      SectorsOfRun(image, first + 1, n - 1);
      ExtentSplit(image, first, n);
      RunSplit(first, n);
      FirstSector(image, first, Run(first + 1, n - 1));
    }
  }

  lemma {:induction false} RunSplit(first: nat, n: nat)
    requires n > 0
    ensures Run(first, n) == [first] + Run(first + 1, n - 1)
  {
  }

  lemma {:induction false} FirstSector(image: seq<byte>, cluster: nat, rest: seq<nat>)
    requires |image| == IMAGE_SIZE
    ensures Sectors(image, [cluster] + rest) == Sector(image, cluster) + Sectors(image, rest)
  {
    assert ([cluster] + rest)[1..] == rest;
  }

  lemma {:induction false} SlicesJoin<T>(s: seq<T>, i: nat, j: nat, k: nat)
    requires i <= j <= k <= |s|
    ensures s[i..j] + s[j..k] == s[i..k]
  {
  }

  lemma {:induction false} RunInArea(image: seq<byte>, data: seq<byte>, area: seq<byte>, used: nat, n: nat)
    requires |image| == IMAGE_SIZE && data == image[DATA_AT..] && area <= data && 512 * used + 512 * n <= |area|
    requires used + n <= DATA_CLUSTERS
    ensures Extent(image, 2 + used, n) == area[512 * used..512 * used + 512 * n]
  {
  }

  lemma {:induction false} AreaFirst(image: seq<byte>, files: seq<Record>)
    requires |image| == IMAGE_SIZE && Fitting(files, |files|) && DataHolds(image, files)
    ensures Area(files, |files|) <= image[DATA_AT..]
  {
  }

  lemma {:induction false} SectorsInArea(image: seq<byte>, run: seq<nat>, area: seq<byte>, used: nat, n: nat,
                                         total: nat, padded: seq<byte>)
    requires |image| == IMAGE_SIZE && area <= image[DATA_AT..] && |area| == 512 * total && run == Run(2 + used, n)
    requires used + n <= total <= DATA_CLUSTERS && area[512 * used..512 * used + 512 * n] == padded
    ensures Sectors(image, run) == padded
  {
    SectorsOfRun(image, 2 + used, n);
    RunInArea(image, image[DATA_AT..], area, used, n);
  }

  lemma {:induction false} SectorsOfFile(image: seq<byte>, files: seq<Record>, i: nat)
    requires |image| == IMAGE_SIZE && Fitting(files, |files|) && DataHolds(image, files) && i < |files|
    ensures Sectors(image, RunOf(files, i)) == Padded(files[i].data)
  {
    var used, n, total := Used(files, i), Clusters(|files[i].data|), Used(files, |files|);
    FileInArea(files, i);
    AreaFirst(image, files);
    SectorsInArea(image, RunOf(files, i), Area(files, |files|), used, n, total, Padded(files[i].data));
  }

  // Every file is found again by following its chain, under its own name.
  lemma {:induction false} FileRecovered(image: seq<byte>, disk: Disk, i: nat)
    requires Holds(image, disk) && i < |disk.files|
    ensures ReadFile(image, i) == disk.files[i].data
    ensures Entry(image, i)[..11] == disk.files[i].name && Entry(image, i)[11] == disk.files[i].attributes
  {
    FieldsOfFile(image, disk, i);
    ClustersOfFile(image, disk, i);
    SectorsOfFile(image, disk.files, i);
  }

  // No cluster belongs to two files.
  lemma {:induction false} ClustersDisjoint(image: seq<byte>, disk: Disk, i: nat, j: nat)
    requires Holds(image, disk) && i < j < |disk.files|
    ensures forall c <- ClustersOf(image, i) :: c !in ClustersOf(image, j)
  {
    ClustersOfFile(image, disk, i);
    ClustersOfFile(image, disk, j);
    UsedBefore(disk.files, i + 1, j);
  }

  lemma {:induction false} OwnerOf(files: seq<Record>, m: nat, k: nat) returns (i: nat)
    requires m <= |files| && k < Used(files, m)
    ensures i < m && Used(files, i) <= k < Used(files, i) + Clusters(|files[i].data|)
  {
    if k < Used(files, m - 1) {
      i := OwnerOf(files, m - 1, k);
    } else {
      i := m - 1;
    }
  }

  // A cluster is marked free exactly when it is in the chain of no file.
  lemma {:induction false} FreeIsZero(image: seq<byte>, disk: Disk, c: nat)
    requires Holds(image, disk) && 2 <= c < DATA_CLUSTERS + 2
    ensures GetEntry(FatCopy(image, 0), c) == 0 <==> forall i | 0 <= i < |disk.files| :: c !in ClustersOf(image, i)
  {
    var files := disk.files;
    forall i | 0 <= i < |files| ensures ClustersOf(image, i) == RunOf(files, i) {
      ClustersOfFile(image, disk, i);
    }
    FreeOrOwned(FatCopy(image, 0), files, c);
  }

  lemma {:induction false} FreeOrOwned(fat: seq<byte>, files: seq<Record>, c: nat)
    requires Table(fat, RESERVED_ENTRIES + Chains(files, |files|)) && Used(files, |files|) <= DATA_CLUSTERS
    requires 2 <= c < DATA_CLUSTERS + 2
    ensures GetEntry(fat, c) == 0 <==> forall i | 0 <= i < |files| :: c !in RunOf(files, i)
  {
    if c - 2 < Used(files, |files|) {
      var i := OwnerOf(files, |files|, c - 2);
      RunMembers(2 + Used(files, i), Clusters(|files[i].data|), c);
      FileChain(fat, files, i);
      assert GetEntry(fat, c) != 0;
      assert c in RunOf(files, i);
    } else {
      forall i | 0 <= i < |files| ensures c !in RunOf(files, i) {
        UsedBefore(files, i + 1, |files|);
      }
    }
  }
}
