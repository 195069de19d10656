/** Building a disk image: sectors, table entries and directory entries written in turn. */
module DiskBuild {
  import opened Wrappers
  import opened Bytes
  import opened Fat12
  import opened DiskNames
  import opened DiskLayout

  datatype MediaFile = MediaFile(name: string, data: seq<byte>, attributes: int)

  // ----- what building may stumble over

  // How names are turned into name fields; DosName, wherever it matters which.
  type Naming = string -> Result<NameField>

  // What the disk holds for a file; a file without a valid name or attributes is refused.
  function Stored(file: MediaFile, naming: Naming): Record {
    Record(if naming(file.name).Ok? then naming(file.name).value else Zeros(11), file.data,
           if 0 <= file.attributes <= 255 then file.attributes else 0)
  }

  function Records(files: seq<MediaFile>, naming: Naming): (r: seq<Record>)
    ensures |r| == |files| && forall i | 0 <= i < |files| :: r[i] == Stored(files[i], naming)
  {
    seq(|files|, i requires 0 <= i < |files| => Stored(files[i], naming))
  }

  function FileFault(file: MediaFile, naming: Naming, used: nat): Option<Error> {
    if used + Clusters(|file.data|) > DATA_CLUSTERS then Some(DiskFull)
    else if naming(file.name).Err? then Some(naming(file.name).error)
    else if !(0 <= file.attributes <= 255) then Some(BadAttributes)
    else None
  }

  // The fault of the first of the first m files that has one.
  function FilesFault(files: seq<MediaFile>, naming: Naming, m: nat): Option<Error>
    requires m <= |files|
  {
    if m == 0 then None
    else if FilesFault(files, naming, m - 1).Some? then FilesFault(files, naming, m - 1)
    else FileFault(files[m - 1], naming, Used(Records(files, naming), m - 1))
  }

  function Fault(files: seq<MediaFile>, naming: Naming, boot: seq<byte>, volume: string, serial: int): Option<Error> {
    if |boot| != SECTOR_SIZE then Some(BadBootSector)
    else if |files| + 1 > ROOT_ENTRIES then Some(TooManyFiles)
    else if !(0 <= serial < 0x1_0000_0000) then Some(BadSerial)
    else if !Ascii(volume) then Some(LabelNotAscii)
    else FilesFault(files, naming, |files|)
  }

  predicate Storable(file: MediaFile, naming: Naming) {
    naming(file.name).Ok? && 0 <= file.attributes <= 255
  }

  lemma {:induction false} FilesAccepted(files: seq<MediaFile>, naming: Naming, m: nat)
    requires m <= |files|
    ensures FilesFault(files, naming, m) == None
      <==> Used(Records(files, naming), m) <= DATA_CLUSTERS && forall i | 0 <= i < m :: Storable(files[i], naming)
  {
    if m > 0 {
      FilesAccepted(files, naming, m - 1);
      UsedBefore(Records(files, naming), m - 1, m);
    }
  }

  // A disk is built exactly when everything fits and every name and number is valid.
  lemma {:induction false} Accepted(files: seq<MediaFile>, naming: Naming, boot: seq<byte>, volume: string, serial: int)
    ensures Fault(files, naming, boot, volume, serial) == None
      <==> |boot| == SECTOR_SIZE && |files| < ROOT_ENTRIES && 0 <= serial < 0x1_0000_0000 && Ascii(volume)
           && Used(Records(files, naming), |files|) <= DATA_CLUSTERS
           && forall i | 0 <= i < |files| :: Storable(files[i], naming)
  {
    FilesAccepted(files, naming, |files|);
  }

  lemma {:induction false} FaultKept(files: seq<MediaFile>, naming: Naming, m: nat, n: nat)
    requires m <= n <= |files| && FilesFault(files, naming, m).Some?
    ensures FilesFault(files, naming, n) == FilesFault(files, naming, m)
  {
    if m < n {
      FaultKept(files, naming, m, n - 1);
    }
  }

  // ----- slice assignment

  // s[i:j] = t on a byte array; its length changes when t is not j - i long.
  function Splice(s: seq<byte>, i: nat, j: nat, t: seq<byte>): (r: seq<byte>)
    requires i <= j <= |s|
    ensures |r| == |s| - (j - i) + |t|
  {
    s[..i] + t + s[j..]
  }

  lemma {:induction false} SpliceInside(s: seq<byte>, i: nat, t: seq<byte>)
    requires i + |t| <= |s|
    ensures Splice(s, i, i + |t|, t)[i..i + |t|] == t
  {
  }

  lemma {:induction false} SpliceOutside(s: seq<byte>, i: nat, t: seq<byte>, a: nat, b: nat)
    requires i + |t| <= |s| && a <= b <= |s| && (b <= i || i + |t| <= a)
    ensures Splice(s, i, i + |t|, t)[a..b] == s[a..b]
  {
  }

  // ----- the boot sector

  // An image of which the part `done` is final, and the part behind it is as it was.
  ghost predicate Patched(image: seq<byte>, done: seq<byte>, was: seq<byte>) {
    |image| == |was| && done <= image && image[|done|..] == was[|done|..]
  }

  lemma {:induction false} PatchedMore(image: seq<byte>, done: seq<byte>, was: seq<byte>, at: nat, field: seq<byte>)
    requires Patched(image, done, was) && |done| <= at && at + |field| <= |image|
    ensures Patched(Splice(image, at, at + |field|, field), done + was[|done|..at] + field, was)
  {
    assert image[..at] == done + image[|done|..][..at - |done|];
    assert image[at + |field|..] == image[|done|..][at + |field| - |done|..];
    assert was[at + |field|..] == was[|done|..][at + |field| - |done|..];
    assert was[|done|..at] == was[|done|..][..at - |done|];
  }

  method Patch(image: seq<byte>, ghost done: seq<byte>, ghost was: seq<byte>, at: nat, field: seq<byte>)
    returns (r: seq<byte>)
    requires Patched(image, done, was) && |done| == at && at + |field| <= |image|
    ensures Patched(r, done + field, was)
  {
    r := image[..at] + field + image[at + |field|..];
    PatchedMore(image, done, was, at, field);
    assert done + was[|done|..at] == done;
  }

  method PatchGeometry(boot: seq<byte>, was: seq<byte>) returns (image: seq<byte>)
    requires |boot| == SECTOR_SIZE && boot <= was
    ensures Patched(image, Geometry(boot), was)
  {
    ghost var done := boot[..11];
    image := was;
    image := Patch(image, done, was, 11, Le16(SECTOR_SIZE)); done := done + Le16(SECTOR_SIZE);
    image := Patch(image, done, was, 13, [1]);               done := done + [1];
    image := Patch(image, done, was, 14, Le16(RESERVED));    done := done + Le16(RESERVED);
    image := Patch(image, done, was, 16, [FATS]);            done := done + [FATS];
    image := Patch(image, done, was, 17, Le16(ROOT_ENTRIES)); done := done + Le16(ROOT_ENTRIES);
    image := Patch(image, done, was, 19, Le16(TOTAL_SECTORS)); done := done + Le16(TOTAL_SECTORS);
    image := Patch(image, done, was, 21, [0xF0]);            done := done + [0xF0];
    image := Patch(image, done, was, 22, Le16(SECTORS_PER_FAT)); done := done + Le16(SECTORS_PER_FAT);
    image := Patch(image, done, was, 24, Le16(18));          done := done + Le16(18);
    image := Patch(image, done, was, 26, Le16(2));           done := done + Le16(2);
    image := Patch(image, done, was, 28, Le32(0));           done := done + Le32(0);
    image := Patch(image, done, was, 32, Le32(0));           done := done + Le32(0);
    image := Patch(image, done, was, 36, [0]);
  }

  lemma {:induction false} PatchedGap(image: seq<byte>, done: seq<byte>, was: seq<byte>, at: nat)
    requires Patched(image, done, was) && |done| <= at <= |was|
    ensures Patched(image, done + was[|done|..at], was)
  {
    assert image[|done|..at] == was[|done|..][..at - |done|];
    assert image[at..] == image[|done|..][at - |done|..];
    assert was[at..] == was[|done|..][at - |done|..];
  }

  // How much longer an image becomes by a volume label that does not fit its field.
  function Excess(volume: string): nat {
    if |volume| > 11 then |volume| - 11 else 0
  }

  method WriteSerial(boot: seq<byte>, was: seq<byte>, serial: nat) returns (image: seq<byte>)
    requires |boot| == SECTOR_SIZE && boot <= was && serial < 0x1_0000_0000
    ensures Patched(image, Geometry(boot) + boot[37..38] + [0x29] + Le32(serial), was)
  {
    ghost var done := Geometry(boot);
    image := PatchGeometry(boot, was);
    PatchedGap(image, done, was, 38);
    assert was[37..38] == boot[37..38];
    done := done + boot[37..38];
    image := Patch(image, done, was, 38, [0x29]);
    image := Patch(image, done + [0x29], was, 39, Le32(serial));
  }

  method WriteVolume(was: seq<byte>, boot: seq<byte>, volume: string, ghost done: seq<byte>) returns (image: seq<byte>)
    requires |boot| == SECTOR_SIZE <= |was| && |done| == 43 && done <= was && was[62..510] == boot[62..510]
    requires Ascii(volume)
    ensures |image| == |was| + Excess(volume)
    ensures |volume| <= 11 ==>
      var fields := AsciiBytes(PadRight(volume, 11)) + AsciiBytes("FAT12   ");
      Patched(image, done + fields + boot[62..510] + [0x55, 0xAA], was)
  {
    var field := AsciiBytes(PadRight(volume, 11));
    var kind, mark := AsciiBytes("FAT12   "), [0x55, 0xAA];
    image := was[..43] + field + was[54..];
    var first := image;
    image := image[..54] + kind + image[62..];
    var second := image;
    image := image[..510] + mark + image[512..];
    if |volume| <= 11 {
      PatchedMore(was, done, was, 43, field);
      assert done + was[43..43] + field == done + field;
      ghost var labelled := done + field;
      PatchedMore(first, labelled, was, 54, kind);
      assert labelled + was[54..54] + kind == labelled + kind;
      PatchedMore(second, labelled + kind, was, 510, mark);
    }
  }

  // The image with its boot sector, and zeros behind it.
  method WriteBoot(boot: seq<byte>, volume: string, serial: nat) returns (image: seq<byte>)
    requires |boot| == SECTOR_SIZE && serial < 0x1_0000_0000 && Ascii(volume)
    ensures |image| == IMAGE_SIZE + Excess(volume)
    ensures |volume| <= 11 ==> image == BootSector(boot, volume, serial) + Zeros(IMAGE_SIZE - SECTOR_SIZE)
  {
    var blank := boot + Zeros(IMAGE_SIZE - SECTOR_SIZE);
    image := WriteSerial(boot, blank, serial);
    ghost var done := Geometry(boot) + boot[37..38] + [0x29] + Le32(serial);
    var was := image;
    assert image[43..] == blank[43..];
    assert image[62..510] == image[43..][19..467];
    assert blank[62..510] == blank[43..][19..467];
    assert blank[62..510] == boot[62..510];
    image := WriteVolume(was, boot, volume, done);
    assert was[512..] == was[43..][469..];
    assert blank[512..] == blank[43..][469..];
    assert blank[512..] == Zeros(IMAGE_SIZE - SECTOR_SIZE);
    if |volume| <= 11 {
      assert BootSector(boot, volume, serial) == image[..512];
    }
  }

  // ----- clusters

  lemma {:induction false} TableGrows(fat: seq<byte>, entries: seq<nat>, value: nat)
    requires Table(fat, entries) && |entries| < DATA_CLUSTERS + 2 && value < 0x1000
    ensures InFat(fat, |entries|) && Table(WithEntry(fat, |entries|, value), entries + [value])
  {
    var longer, c := WithEntry(fat, |entries|, value), |entries|;
    forall d: nat | InFat(longer, d)
      ensures GetEntry(longer, d) == if d < c + 1 then (entries + [value])[d] else 0
    {
      if d == c {
        EntryRead(fat, c, value);
      } else {
        OtherEntry(fat, c, value, d);
      }
    }
  }

  lemma {:induction false} ChainGrows(entries: seq<nat>, chain: seq<nat>, i: nat)
    requires i < |chain|
    ensures (entries + chain[..i]) + [chain[i]] == entries + chain[..i + 1]
  {
  }

  lemma {:induction false} SpliceGrows(image: seq<byte>, at: nat, data: seq<byte>, m: nat, n: nat)
    requires at + |data| <= |image| && m <= n <= |data|
    ensures Splice(Splice(image, at, at + m, data[..m]), at + m, at + n, data[m..n])
      == Splice(image, at, at + n, data[..n])
  {
  }

  // Where the data of a cluster starts.
  function DataAt(cluster: nat): (at: nat)
    requires cluster >= 2
  {
    DATA_AT + 512 * (cluster - 2)
  }

  // How much of the data its first n clusters hold.
  function Held(data: seq<byte>, n: nat): (m: nat)
    ensures m <= |data|
  {
    if 512 * n < |data| then 512 * n else |data|
  }

  // The image with the bytes of a file's first n clusters in place.
  function Copied(image: seq<byte>, data: seq<byte>, next: nat, n: nat): (r: seq<byte>)
    requires 2 <= next && DataAt(next) + |data| <= |image|
    ensures |r| == |image|
  {
    Splice(image, DataAt(next), DataAt(next) + Held(data, n), data[..Held(data, n)])
  }

  lemma {:induction false} CopiedMore(image: seq<byte>, data: seq<byte>, next: nat, n: nat)
    requires 2 <= next && DataAt(next) + |data| <= |image| && n < Clusters(|data|)
    ensures var start, end := DataAt(next + n), DataAt(next) + Held(data, n + 1);
      start <= end
      && Splice(Copied(image, data, next, n), start, end, data[512 * n..Held(data, n + 1)])
         == Copied(image, data, next, n + 1)
  {
    SpliceGrows(image, DataAt(next), data, Held(data, n), Held(data, n + 1));
  }

  lemma {:induction false} CopiedEnds(image: seq<byte>, data: seq<byte>, next: nat)
    requires 2 <= next && DataAt(next) + |data| <= |image|
    ensures Copied(image, data, next, 0) == image
    ensures Copied(image, data, next, Clusters(|data|)) == Splice(image, DataAt(next), DataAt(next) + |data|, data)
  {
    assert Splice(image, DataAt(next), DataAt(next), []) == image;
    assert data[..|data|] == data;
  }

  // The entries before a chain, and its first n.
  function Linked(entries: seq<nat>, chain: seq<nat>, n: nat): seq<nat>
    requires n <= |chain|
  {
    entries + chain[..n]
  }

  lemma {:induction false} LinkedEnds(entries: seq<nat>, chain: seq<nat>)
    ensures Linked(entries, chain, 0) == entries && Linked(entries, chain, |chain|) == entries + chain
  {
  }

  // The table entry of one cluster of a file.
  method LinkSector(fat: array<byte>, next: nat, clusters: nat, number: nat, ghost entries: seq<nat>)
    requires number < clusters && 2 <= next && next - 2 + clusters <= DATA_CLUSTERS && |entries| == next
    requires Table(fat[..], Linked(entries, Chain(next, clusters), number))
    modifies fat
    ensures Table(fat[..], Linked(entries, Chain(next, clusters), number + 1))
  {
    var cluster := next + number;
    ghost var chain := Chain(next, clusters);
    TableGrows(fat[..], Linked(entries, chain, number), chain[number]);
    ChainGrows(entries, chain, number);
    SetFat12(fat, cluster, if number + 1 == clusters then 0xFFF else cluster + 1);
  }

  // The bytes of one cluster of a file.
  method CopySector(was: seq<byte>, data: seq<byte>, next: nat, number: nat, ghost image: seq<byte>)
    returns (r: seq<byte>)
    requires number < Clusters(|data|) && 2 <= next && DataAt(next) + |data| <= |image|
    requires was == Copied(image, data, next, number)
    ensures r == Copied(image, data, next, number + 1)
  {
    CopiedMore(image, data, next, number);
    var start := DATA_AT + 512 * (next + number - 2);
    var chunk := data[512 * number..if 512 * number + 512 < |data| then 512 * number + 512 else |data|];
    r := was[..start] + chunk + was[start + |chunk|..];
  }

  // A file's clusters, in order from the first free one: one run of bytes.
  method StoreFile(fat: array<byte>, image: seq<byte>, data: seq<byte>, next: nat, ghost entries: seq<nat>)
    returns (r: seq<byte>)
    requires 2 <= next && next - 2 + Clusters(|data|) <= DATA_CLUSTERS
    requires |entries| == next && Table(fat[..], entries) && |image| >= IMAGE_SIZE
    modifies fat
    ensures Table(fat[..], entries + Chain(next, Clusters(|data|)))
    ensures DataAt(next) + |data| <= |image| && r == Splice(image, DataAt(next), DataAt(next) + |data|, data)
  {
    var clusters := Clusters(|data|);
    LinkedEnds(entries, Chain(next, clusters));
    CopiedEnds(image, data, next);
    r := image;
    for number := 0 to clusters
      invariant Table(fat[..], Linked(entries, Chain(next, clusters), number))
      invariant r == Copied(image, data, next, number)
    {
      LinkSector(fat, next, clusters, number, entries);
      r := CopySector(r, data, next, number, image);
    }
  }

  // ----- directory entries

  lemma {:induction false} SpliceWithin(before: seq<byte>, middle: seq<byte>, after: seq<byte>, i: nat, t: seq<byte>)
    requires i + |t| <= |middle|
    ensures Splice(before + middle + after, |before| + i, |before| + i + |t|, t)
      == before + Splice(middle, i, i + |t|, t) + after
  {
  }

  lemma {:induction false} EntryWritten(name: NameField, attributes: byte, stamp: seq<byte>, size: seq<byte>)
    requires |stamp| == 6 && |size| == 4
    ensures Splice(Splice(Splice(Splice(Zeros(32), 0, 11, name), 11, 12, [attributes]), 22, 28, stamp), 28, 32, size)
      == name + [attributes] + Zeros(10) + stamp + size
  {
    assert Splice(Zeros(32), 0, 11, name) == name + Zeros(21);
    assert Splice(name + Zeros(21), 11, 12, [attributes]) == name + [attributes] + Zeros(20);
    assert Splice(name + [attributes] + Zeros(20), 22, 28, stamp) == name + [attributes] + Zeros(10) + stamp + Zeros(4);
  }

  // The directory with one more entry in an empty place.
  method StoreEntry(root: seq<byte>, offset: nat, name: NameField, attributes: byte, first: nat, size: nat)
    returns (r: seq<byte>)
    requires offset + 32 <= |root| && first < 0x1_0000 && size < 0x1_0000_0000 && root[offset..offset + 32] == Zeros(32)
    ensures r == Splice(root, offset, offset + 32, DirEntry(name, attributes, first, size))
  {
    var stamp := Le16(FIXED_TIME) + Le16(FIXED_DATE) + Le16(first);
    ghost var before, after, e0 := root[..offset], root[offset + 32..], Zeros(32);
    assert root == before + e0 + after;
    r := root[..offset] + name + root[offset + 11..];
    ghost var e1 := Splice(e0, 0, 11, name);
    assert r == before + e1 + after by { SpliceWithin(before, e0, after, 0, name); }
    ghost var e2 := Splice(e1, 11, 12, [attributes]);
    SpliceWithin(before, e1, after, 11, [attributes]);
    r := r[offset + 11 := attributes];
    assert r == before + e2 + after;
    SpliceWithin(before, e2, after, 22, stamp);
    r := r[..offset + 22] + stamp + r[offset + 28..];
    SpliceWithin(before, Splice(e2, 22, 28, stamp), after, 28, Le32(size));
    r := r[..offset + 28] + Le32(size) + r[offset + 32..];
    EntryWritten(name, attributes, stamp, Le32(size));
    assert DirEntry(name, attributes, first, size) == name + [attributes] + Zeros(10) + stamp + Le32(size);
  }

  lemma {:induction false} VolumeWritten(volume: string)
    requires Ascii(volume) && |volume| <= 11
    ensures var name: NameField, stamp := AsciiBytes(PadRight(volume, 11)), Le16(FIXED_TIME) + Le16(FIXED_DATE);
      Splice(Splice(Splice(Zeros(32), 0, 11, name), 11, 12, [0x08]), 22, 26, stamp) == LabelEntry(volume)
  {
    var name: NameField, stamp := AsciiBytes(PadRight(volume, 11)), Le16(FIXED_TIME) + Le16(FIXED_DATE);
    assert Splice(Zeros(32), 0, 11, name) == name + Zeros(21);
    assert Splice(name + Zeros(21), 11, 12, [0x08]) == name + [0x08] + Zeros(20);
    assert Splice(name + [0x08] + Zeros(20), 22, 26, stamp) == name + [0x08] + Zeros(10) + stamp + Zeros(6);
    assert Le16(0) + Le32(0) == Zeros(6);
  }

  // The volume's own entry; a label longer than its field makes the directory longer.
  method StoreVolume(root: seq<byte>, offset: nat, volume: string) returns (r: seq<byte>)
    requires Ascii(volume) && offset + 32 <= |root| && root[offset..offset + 32] == Zeros(32)
    ensures |r| == |root| + Excess(volume)
    ensures |volume| <= 11 ==> r == Splice(root, offset, offset + 32, LabelEntry(volume))
  {
    var field, stamp := AsciiBytes(PadRight(volume, 11)), Le16(FIXED_TIME) + Le16(FIXED_DATE);
    r := root[..offset] + field + root[offset + 11..];
    r := r[offset + 11 := 0x08];
    ghost var was := r;
    r := r[..offset + 22] + stamp + r[offset + 26..];
    if |volume| <= 11 {
      ghost var before, after, e0 := root[..offset], root[offset + 32..], Zeros(32);
      ghost var e1 := Splice(e0, 0, 11, field);
      assert root == before + e0 + after;
      SpliceWithin(before, e0, after, 0, field);
      SpliceWithin(before, e1, after, 11, [0x08]);
      assert was == before + Splice(e1, 11, 12, [0x08]) + after;
      SpliceWithin(before, Splice(e1, 11, 12, [0x08]), after, 22, stamp);
      VolumeWritten(volume);
    }
  }

  // ----- the whole image

  // What is final of an image when the first m files are stored.
  ghost predicate Filled(image: seq<byte>, first: seq<byte>, files: seq<Record>, m: nat) {
    Fitting(files, m) && |image| == IMAGE_SIZE == |first| && image[..DATA_AT] == first[..DATA_AT]
    && image[DATA_AT..] == Area(files, m) + Zeros(IMAGE_SIZE - DATA_AT - 512 * Used(files, m))
  }

  lemma {:induction false} FilledMore(image: seq<byte>, first: seq<byte>, files: seq<Record>, m: nat)
    requires Filled(image, first, files, m) && m < |files|
    requires Used(files, m) + Clusters(|files[m].data|) <= DATA_CLUSTERS
    ensures var at, data := DataAt(2 + Used(files, m)), files[m].data;
      at + |data| <= IMAGE_SIZE && Filled(Splice(image, at, at + |data|, data), first, files, m + 1)
  {
    var at, data := 512 * Used(files, m), files[m].data;
    DataSpliced(image, Area(files, m), data, 512 * Clusters(|data|));
  }

  lemma {:induction false} DataSpliced(image: seq<byte>, area: seq<byte>, data: seq<byte>, size: nat)
    requires |image| == IMAGE_SIZE && |area| + size <= IMAGE_SIZE - DATA_AT && |data| <= size
    requires image[DATA_AT..] == area + Zeros(IMAGE_SIZE - DATA_AT - |area|)
    ensures var at := DATA_AT + |area|; var r := Splice(image, at, at + |data|, data);
      r[..DATA_AT] == image[..DATA_AT]
      && r[DATA_AT..] == area + (data + Zeros(size - |data|)) + Zeros(IMAGE_SIZE - DATA_AT - |area| - size)
  {
    var at := DATA_AT + |area|;
    var r := Splice(image, at, at + |data|, data);
    var rest := image[DATA_AT..];
    assert image == image[..DATA_AT] + rest;
    assert r == image[..DATA_AT] + Splice(rest, |area|, |area| + |data|, data);
    assert rest[..|area|] == area;
    assert rest[|area| + |data|..] == Zeros(size - |data|) + Zeros(IMAGE_SIZE - DATA_AT - |area| - size);
  }

  lemma {:induction false} RootMore(root: seq<byte>, files: seq<Record>, m: nat)
    requires m < |files| && Fitting(files, m + 1) && 32 * (m + 1) <= ROOT_SIZE
    requires Fitting(files, m) && root == Root(files, m) + Zeros(ROOT_SIZE - 32 * m)
    ensures root[32 * m..32 * m + 32] == Zeros(32)
    ensures Splice(root, 32 * m, 32 * m + 32, EntryFor(files, m))
      == Root(files, m + 1) + Zeros(ROOT_SIZE - 32 * (m + 1))
  {
  }

  // How far the directory and the image are when the first m files are stored.
  ghost predicate PartsStored(root: seq<byte>, image: seq<byte>, first: seq<byte>, files: seq<Record>, m: nat) {
    Fitting(files, m) && 32 * m <= ROOT_SIZE && root == Root(files, m) + Zeros(ROOT_SIZE - 32 * m)
    && |image| == |first| >= IMAGE_SIZE && (|image| == IMAGE_SIZE ==> Filled(image, first, files, m))
  }

  ghost predicate TableStored(fat: seq<byte>, files: seq<Record>, m: nat) {
    m <= |files| && Table(fat, RESERVED_ENTRIES + Chains(files, m))
  }

  lemma {:induction false} PartsMore(root: seq<byte>, image: seq<byte>, first: seq<byte>, files: seq<Record>, m: nat)
    requires PartsStored(root, image, first, files, m) && Fitting(files, m + 1) && 32 * (m + 1) <= ROOT_SIZE
    ensures root[32 * m..32 * m + 32] == Zeros(32)
    ensures var at, data := DataAt(2 + Used(files, m)), files[m].data;
      at + |data| <= IMAGE_SIZE
      && PartsStored(Splice(root, 32 * m, 32 * m + 32, EntryFor(files, m)), Splice(image, at, at + |data|, data),
                     first, files, m + 1)
  {
    RootMore(root, files, m);
    ImageMore(image, first, files, m);
  }

  lemma {:induction false} ImageMore(image: seq<byte>, first: seq<byte>, files: seq<Record>, m: nat)
    requires m < |files| && Fitting(files, m + 1) && |image| == |first| >= IMAGE_SIZE
    requires |image| == IMAGE_SIZE ==> Filled(image, first, files, m)
    ensures var at, data := DataAt(2 + Used(files, m)), files[m].data;
      at + |data| <= IMAGE_SIZE && |Splice(image, at, at + |data|, data)| == |image|
      && (|image| == IMAGE_SIZE ==> Filled(Splice(image, at, at + |data|, data), first, files, m + 1))
  {
    DataFits(files, m);
    if |image| == IMAGE_SIZE {
      FilledMore(image, first, files, m);
    }
  }

  lemma {:induction false} DataFits(files: seq<Record>, m: nat)
    requires m < |files| && Fitting(files, m + 1)
    ensures DataAt(2 + Used(files, m)) + |files[m].data| <= IMAGE_SIZE
  {
  }

  lemma {:induction false} ChainsMore(files: seq<Record>, m: nat)
    requires m < |files|
    ensures |RESERVED_ENTRIES + Chains(files, m)| == 2 + Used(files, m)
    ensures RESERVED_ENTRIES + Chains(files, m + 1)
      == RESERVED_ENTRIES + Chains(files, m) + Chain(2 + Used(files, m), Clusters(|files[m].data|))
  {
    Regrouped(RESERVED_ENTRIES, Chains(files, m), Chain(2 + Used(files, m), Clusters(|files[m].data|)));
  }

  lemma {:induction false} Regrouped<T>(a: seq<T>, b: seq<T>, c: seq<T>)
    ensures a + (b + c) == a + b + c
  {
  }

  method StoreRecordEntry(root: seq<byte>, record: Record, next: nat, m: nat, ghost files: seq<Record>)
    returns (r: seq<byte>)
    requires m < |files| && record == files[m] && next == 2 + Used(files, m)
    requires next - 2 + Clusters(|record.data|) <= DATA_CLUSTERS
    requires 32 * m + 32 <= |root| && root[32 * m..32 * m + 32] == Zeros(32)
    ensures r == Splice(root, 32 * m, 32 * m + 32, EntryFor(files, m))
  {
    var clusters := Clusters(|record.data|);
    var first := if clusters > 0 then next else 0;
    r := StoreEntry(root, 32 * m, record.name, record.attributes, first, |record.data|);
  }

  // One file.  The source checks the name only after the clusters are written, but the
  // image is then given up.
  method StoreRecord(fat: array<byte>, root: seq<byte>, image: seq<byte>, record: Record, next: nat,
                     m: nat, ghost first: seq<byte>, ghost files: seq<Record>)
    returns (root': seq<byte>, image': seq<byte>)
    requires m < |files| && record == files[m] && next == 2 + Used(files, m) && Fitting(files, m + 1)
    requires 32 * (m + 1) <= ROOT_SIZE
    requires TableStored(fat[..], files, m) && PartsStored(root, image, first, files, m)
    modifies fat
    ensures TableStored(fat[..], files, m + 1) && PartsStored(root', image', first, files, m + 1)
  {
    PartsMore(root, image, first, files, m);
    ghost var entries := RESERVED_ENTRIES + Chains(files, m);
    ChainsMore(files, m);
    root' := StoreRecordEntry(root, record, next, m, files);
    image' := StoreFile(fat, image, record.data, next, entries);
  }

  method StoreFiles(files: seq<MediaFile>, naming: Naming, fat: array<byte>, blank: seq<byte>)
    returns (fault: Option<Error>, root: seq<byte>, image: seq<byte>)
    requires |files| < ROOT_ENTRIES && Table(fat[..], RESERVED_ENTRIES) && |blank| >= IMAGE_SIZE
    requires |blank| == IMAGE_SIZE ==> blank[DATA_AT..] == Zeros(IMAGE_SIZE - DATA_AT)
    modifies fat
    ensures fault == FilesFault(files, naming, |files|)
    ensures fault == None ==>
      var records := Records(files, naming);
      TableStored(fat[..], records, |files|) && PartsStored(root, image, blank, records, |files|)
  {
    fault, root, image := None, Zeros(ROOT_SIZE), blank;
    var next := 2;
    ghost var records := Records(files, naming);
    for index := 0 to |files|
      invariant FilesFault(files, naming, index) == None && next == 2 + Used(records, index)
      invariant fault == None && TableStored(fat[..], records, index) && PartsStored(root, image, blank, records, index)
    {
      fault := FileFault(files[index], naming, next - 2);
      if fault.Some? {
        FaultKept(files, naming, index + 1, |files|);
        return;
      }
      NoFault(files, naming, index);
      root, image := StoreRecord(fat, root, image, Stored(files[index], naming), next, index, blank, records);
      next := next + Clusters(|files[index].data|);
    }
  }

  lemma {:induction false} NoFault(files: seq<MediaFile>, naming: Naming, m: nat)
    requires m < |files| < ROOT_ENTRIES && FilesFault(files, naming, m) == None
    requires FileFault(files[m], naming, Used(Records(files, naming), m)) == None
    ensures FilesFault(files, naming, m + 1) == None && Fitting(Records(files, naming), m + 1)
    ensures Used(Records(files, naming), m + 1) == Used(Records(files, naming), m) + Clusters(|files[m].data|)
    ensures 32 * (m + 1) <= ROOT_SIZE
  {
  }

  function FatStart(copy: nat): nat { FAT_AT + FAT_SIZE * copy }

  // The tables and the directory, over whatever is there.
  method WriteTables(image: seq<byte>, fat: seq<byte>, root: seq<byte>) returns (r: seq<byte>)
    requires |fat| == FAT_SIZE && |image| >= IMAGE_SIZE && |root| >= ROOT_SIZE
    requires |image| - IMAGE_SIZE == |root| - ROOT_SIZE
    ensures |r| == |image|
    ensures |image| == IMAGE_SIZE ==>
      r[..FAT_AT] == image[..FAT_AT] && FatCopy(r, 0) == fat && FatCopy(r, 1) == fat
      && r[ROOT_AT..DATA_AT] == root && r[DATA_AT..] == image[DATA_AT..]
  {
    r := image;
    for fat_number := 0 to FATS
      invariant |r| == |image| && r[..FAT_AT] == image[..FAT_AT] && r[ROOT_AT..] == image[ROOT_AT..]
      invariant forall k | 0 <= k < fat_number :: r[FatStart(k)..FatStart(k) + FAT_SIZE] == fat
    {
      var start := FAT_AT + fat_number * FAT_SIZE;
      ghost var was := r;
      r := r[..start] + fat + r[start + FAT_SIZE..];
      FatWritten(was, fat, start);
      forall k | 0 <= k < fat_number ensures r[FatStart(k)..FatStart(k) + FAT_SIZE] == fat {
        SpliceOutside(was, start, fat, FatStart(k), FatStart(k) + FAT_SIZE);
      }
    }
    assert r[FatStart(0)..FatStart(0) + FAT_SIZE] == fat && r[FatStart(1)..FatStart(1) + FAT_SIZE] == fat;
    ghost var was := r;
    r := r[..ROOT_AT] + root + r[ROOT_AT + |root|..];
    if |image| == IMAGE_SIZE {
      RootWritten(was, image, root);
    }
  }

  lemma {:induction false} FatWritten(was: seq<byte>, fat: seq<byte>, start: nat)
    requires |fat| == FAT_SIZE && FAT_AT <= start && start + FAT_SIZE <= ROOT_AT <= |was|
    ensures var r := Splice(was, start, start + FAT_SIZE, fat);
      r[..FAT_AT] == was[..FAT_AT] && r[ROOT_AT..] == was[ROOT_AT..] && r[start..start + FAT_SIZE] == fat
  {
    SpliceInside(was, start, fat);
    SpliceOutside(was, start, fat, 0, FAT_AT);
    SpliceOutside(was, start, fat, ROOT_AT, |was|);
  }

  lemma {:induction false} RootWritten(was: seq<byte>, image: seq<byte>, root: seq<byte>)
    requires |was| == |image| == IMAGE_SIZE && |root| == ROOT_SIZE && was[ROOT_AT..] == image[ROOT_AT..]
    ensures var r := Splice(was, ROOT_AT, ROOT_AT + |root|, root);
      r[..FAT_AT] == was[..FAT_AT] && FatCopy(r, 0) == FatCopy(was, 0) && FatCopy(r, 1) == FatCopy(was, 1)
      && r[ROOT_AT..DATA_AT] == root && r[DATA_AT..] == image[DATA_AT..]
  {
    SpliceInside(was, ROOT_AT, root);
    SpliceOutside(was, ROOT_AT, root, 0, FAT_AT);
    SpliceOutside(was, ROOT_AT, root, FatStart(0), FatStart(1));
    SpliceOutside(was, ROOT_AT, root, FatStart(1), FatStart(2));
    SpliceOutside(was, ROOT_AT, root, DATA_AT, IMAGE_SIZE);
    assert was[DATA_AT..] == was[ROOT_AT..][ROOT_SIZE..];
    assert image[DATA_AT..] == image[ROOT_AT..][ROOT_SIZE..];
  }

  method FreshFat() returns (fat: array<byte>)
    ensures fresh(fat) && Table(fat[..], RESERVED_ENTRIES)
  {
    fat := new byte[FAT_SIZE](_ => 0);
    fat[0], fat[1], fat[2] := 0xF0, 0xFF, 0xFF;
    ghost var bytes := fat[..];
    assert |bytes| == FAT_SIZE && bytes[0] == 0xF0 && bytes[1] == 0xFF && bytes[2] == 0xFF;
    assert forall i | 3 <= i < FAT_SIZE :: bytes[i] == 0;
    FreshTable(bytes);
  }

  lemma {:induction false} FreshTable(bytes: seq<byte>)
    requires |bytes| == FAT_SIZE && bytes[..3] == [0xF0, 0xFF, 0xFF] && forall i | 3 <= i < FAT_SIZE :: bytes[i] == 0
    ensures Table(bytes, RESERVED_ENTRIES)
  {
    assert bytes[0] == 0xF0 && bytes[1] == 0xFF && bytes[2] == 0xFF;
    forall c: nat | InFat(bytes, c)
      ensures GetEntry(bytes, c) == if c < 2 then RESERVED_ENTRIES[c] else 0
    {
      if c >= 2 {
        assert EntryOffset(c) >= 3;
      }
    }
  }

  // A disk image: refused for the first thing wrong, and otherwise a disk that holds all
  // files.  Only a label longer than its field makes the image longer than a disk.
  method BuildImage(files: seq<MediaFile>, naming: Naming, boot: seq<byte>, volume: string, serial: int)
    returns (r: Result<seq<byte>>)
    ensures var fault := Fault(files, naming, boot, volume, serial); fault.Some? ==> r == Err(fault.value)
    ensures Fault(files, naming, boot, volume, serial) == None ==> r.Ok? && |r.value| == IMAGE_SIZE + Excess(volume)
    ensures r.Ok? && |volume| <= 11 ==> Holds(r.value, Disk(Records(files, naming), boot, volume, serial))
  {
    if |boot| != SECTOR_SIZE {
      return Err(BadBootSector);
    }
    if |files| + 1 > ROOT_ENTRIES {
      return Err(TooManyFiles);
    }
    if !(0 <= serial < 0x1_0000_0000) {
      return Err(BadSerial);
    }
    if !Ascii(volume) {
      return Err(LabelNotAscii);
    }
    var blank := WriteBoot(boot, volume, serial);
    var fat := FreshFat();
    ghost var records := Records(files, naming);
    assert |volume| <= 11 ==> blank[DATA_AT..] == Zeros(IMAGE_SIZE - DATA_AT);
    var fault, root, image := StoreFiles(files, naming, fat, blank);
    if fault.Some? {
      return Err(fault.value);
    }
    image := Finish(image, fat[..], root, volume, |files|, blank, records);
    r := Ok(image);
    if |volume| <= 11 {
      assert image[..FAT_AT] == blank[..FAT_AT] == BootSector(boot, volume, serial);
    }
  }

  // A label of twelve characters is accepted, and the image is one byte longer than a disk.
  method LongLabel(naming: Naming, boot: seq<byte>, volume: string) returns (r: Result<seq<byte>>)
    requires |boot| == SECTOR_SIZE && volume == "INSTALLATION"
    ensures |volume| == 12 && Fault([], naming, boot, volume, 0) == None && r.Ok? && |r.value| == IMAGE_SIZE + 1
  {
    assert FilesFault([], naming, 0) == None;
    r := BuildImage([], naming, boot, volume, 0);
  }

  // The volume's entry behind the last file's, and everything in its place.
  method Finish(image: seq<byte>, fat: seq<byte>, root: seq<byte>, volume: string, count: nat, ghost blank: seq<byte>,
                ghost files: seq<Record>)
    returns (r: seq<byte>)
    requires count == |files| < ROOT_ENTRIES && Ascii(volume) && |image| == IMAGE_SIZE + Excess(volume)
    requires TableStored(fat, files, |files|) && PartsStored(root, image, blank, files, |files|)
    ensures |r| == |image|
    ensures |volume| <= 11 ==>
      r[..FAT_AT] == blank[..FAT_AT] && TablesHold(r, files) && DirectoryHolds(r, files, volume) && DataHolds(r, files)
  {
    var label_offset := count * 32;
    assert root[label_offset..label_offset + 32] == Zeros(32);
    var root' := StoreVolume(root, label_offset, volume);
    r := WriteTables(image, fat, root');
    if |volume| <= 11 {
      VolumeStored(root, files, volume);
      assert image[..FAT_AT] == image[..DATA_AT][..FAT_AT] == blank[..FAT_AT];
    }
  }

  lemma {:induction false} VolumeStored(root: seq<byte>, files: seq<Record>, volume: string)
    requires |files| < ROOT_ENTRIES && Fitting(files, |files|) && Ascii(volume) && |volume| <= 11
    requires root == Root(files, |files|) + Zeros(ROOT_SIZE - 32 * |files|)
    ensures Splice(root, 32 * |files|, 32 * |files| + 32, LabelEntry(volume))
      == Root(files, |files|) + LabelEntry(volume) + Zeros(ROOT_SIZE - 32 * (|files| + 1))
  {
  }
}
