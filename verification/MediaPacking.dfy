/** The second installation disk: compressed files on a FAT12 disk, and what an installer gets back. */
module MediaPacking {
  import opened Wrappers
  import opened Bytes
  import opened DiskNames
  import opened DiskLayout
  import opened DiskFields
  import opened DiskBuild
  import Szdd = SzddFormat
  import SzddSearch
  import SzddCodec

  const SERIAL: nat := 0x0500_0002
  const VOLUME: string := "MSDOS5_2"

  datatype Source = Source(destination: string, data: seq<byte>)

  // The stream of a compressed file.
  function Packed(data: seq<byte>, missing: int): Result<seq<byte>> {
    match SzddSearch.Encoded(data, missing)
    case Err(_) => Err(if 0 <= missing <= 255 then FileTooLong else BadMissing)
    case Ok(stream) => Ok(stream)
  }

  function CompressedFile(source: Source, casing: Casing): Result<MediaFile> {
    match CompressedName(source.destination, casing)
    case Err(e) => Err(e)
    case Ok((name, missing)) =>
      match Packed(source.data, missing)
      case Err(e) => Err(e)
      case Ok(stream) => Ok(MediaFile(name, stream, 0x20))
  }

  type Compressor = Source -> Result<MediaFile>

  // The compressor is the one above; its steps are of no concern to the loop over all files.
  ghost predicate Compresses(compressor: Compressor, casing: Casing) {
    forall s {:trigger CompressedFile(s, casing)} :: compressor(s) == CompressedFile(s, casing)
  }

  // And names become name fields by DosName.
  ghost predicate Names(naming: Naming, casing: Casing) {
    forall n {:trigger DosName(n, casing)} :: naming(n) == DosName(n, casing)
  }

  // The files as they go onto the disk; with a fault among them there is no disk.
  function CompressedFiles(sources: seq<Source>, compressor: Compressor): (r: seq<MediaFile>)
    ensures |r| == |sources|
    ensures forall i | 0 <= i < |sources| && compressor(sources[i]).Ok? :: r[i] == compressor(sources[i]).value
  {
    seq(|sources|, i requires 0 <= i < |sources| =>
      if compressor(sources[i]).Ok? then compressor(sources[i]).value else MediaFile("", [], 0))
  }

  function SecondDiskFault(sources: seq<Source>, compressor: Compressor, taken: set<string>, others: seq<MediaFile>,
                           naming: Naming, boot: seq<byte>): Option<Error>
  {
    var fault := SourcesFault(sources, compressor, taken, |sources|);
    if fault.Some? then fault else Fault(CompressedFiles(sources, compressor) + others, naming, boot, VOLUME, SERIAL)
  }

  // The destinations of the first m files.
  function Destinations(sources: seq<Source>, m: nat): set<string>
    requires m <= |sources|
  {
    if m == 0 then {} else Destinations(sources, m - 1) + {sources[m - 1].destination}
  }

  function SourceFault(source: Source, compressor: Compressor, taken: set<string>): Option<Error> {
    if source.destination in taken then Some(DuplicateName)
    else if compressor(source).Err? then Some(compressor(source).error)
    else None
  }

  // The fault of the first of the first m files that has one.
  function SourcesFault(sources: seq<Source>, compressor: Compressor, taken: set<string>, m: nat): Option<Error>
    requires m <= |sources|
  {
    if m == 0 then None
    else if SourcesFault(sources, compressor, taken, m - 1).Some? then SourcesFault(sources, compressor, taken, m - 1)
    else SourceFault(sources[m - 1], compressor, taken + Destinations(sources, m - 1))
  }

  lemma {:induction false} FirstFaultStays(sources: seq<Source>, compressor: Compressor, taken: set<string>, m: nat,
                                           n: nat)
    requires m <= n <= |sources| && SourcesFault(sources, compressor, taken, m).Some?
    ensures SourcesFault(sources, compressor, taken, n) == SourcesFault(sources, compressor, taken, m)
  {
    if m < n {
      FirstFaultStays(sources, compressor, taken, m, n - 1);
    }
  }

  lemma {:induction false} InDestinations(sources: seq<Source>, m: nat, d: string)
    requires m <= |sources|
    ensures d in Destinations(sources, m) <==> exists j | 0 <= j < m :: sources[j].destination == d
  {
    if m > 0 {
      InDestinations(sources, m - 1, d);
    }
  }

  // Nothing is refused exactly when no destination is used twice and every file can be compressed.
  lemma {:induction false} SourcesAccepted(sources: seq<Source>, compressor: Compressor, taken: set<string>, m: nat)
    requires m <= |sources|
    ensures SourcesFault(sources, compressor, taken, m) == None
      <==> forall i | 0 <= i < m :: sources[i].destination !in taken && compressor(sources[i]).Ok?
             && forall j | 0 <= j < i :: sources[j].destination != sources[i].destination
  {
    if m > 0 {
      SourcesAccepted(sources, compressor, taken, m - 1);
      InDestinations(sources, m - 1, sources[m - 1].destination);
    }
  }

  // All files compressed in turn, unless one is refused.
  method CompressFiles(sources: seq<Source>, casing: Casing, ghost compressor: Compressor, taken: set<string>)
    returns (r: Result<seq<MediaFile>>)
    requires Compresses(compressor, casing)
    ensures var fault := SourcesFault(sources, compressor, taken, |sources|); fault.Some? ==> r == Err(fault.value)
    ensures SourcesFault(sources, compressor, taken, |sources|) == None ==>
      r == Ok(CompressedFiles(sources, compressor)) && forall i | 0 <= i < |sources| :: compressor(sources[i]).Ok?
  {
    var destinations := taken;
    var files := [];
    for i := 0 to |sources|
      invariant |files| == i && forall j | 0 <= j < i :: compressor(sources[j]) == Ok(files[j])
      invariant SourcesFault(sources, compressor, taken, i) == None
      invariant destinations == taken + Destinations(sources, i)
    {
      var source := sources[i];
      if source.destination in destinations {
        FirstFaultStays(sources, compressor, taken, i + 1, |sources|);
        return Err(DuplicateName);
      }
      destinations := destinations + {source.destination};
      var file := Compress(source, casing, compressor);
      if file.Err? {
        FirstFaultStays(sources, compressor, taken, i + 1, |sources|);
        return Err(file.error);
      }
      files := files + [file.value];
    }
    assert files == CompressedFiles(sources, compressor);
    r := Ok(files);
  }

  method Compress(source: Source, casing: Casing, ghost compressor: Compressor) returns (r: Result<MediaFile>)
    requires Compresses(compressor, casing)
    ensures r == compressor(source)
  {
    var named := CompressedName(source.destination, casing);
    if named.Err? {
      assert CompressedFile(source, casing) == Err(named.error);
      return Err(named.error);
    }
    var (name, missing) := named.value;
    var packed := SzddCodec.Encode(source.data, missing);
    if packed.Err? {
      assert CompressedFile(source, casing).Err?;
      return Err(if 0 <= missing <= 255 then FileTooLong else BadMissing);
    }
    r := Ok(MediaFile(name, packed.value, 0x20));
    assert r == CompressedFile(source, casing);
  }

  // What an installer gets back from entry i of the disk: the file and the missing character
  // by decoding the stream found under the entry, which is that of an ordinary file; and the
  // installed name by putting that
  // character into the name the disk shows, exactly when the destination has no dot, or an
  // extension behind it and no space before it.
  ghost predicate Delivered(image: seq<byte>, casing: Casing, i: nat, source: Source)
    requires |image| == IMAGE_SIZE && i < ROOT_ENTRIES
  {
    var upper, field := Upper(source.destination, casing), Entry(image, i)[..11];
    exists missing: byte ::
      CompressedName(source.destination, casing).Ok?
      && missing as int == CompressedName(source.destination, casing).value.1
      && Szdd.Expand(ReadFile(image, i)) == Szdd.Ok((source.data, missing))
      && FileRight(image, i, Record(field, ReadFile(image, i), 0x20))
      && Low(field) && ShownName(field) != ""
      && (Restored(ShownName(field), missing) == upper <==> NameKept(upper))
  }

  predicate NameKept(upper: string) {
    HasDot(upper) ==> Extension(upper) != "" && Trimmed(Stem(upper))
  }

  lemma {:induction false} FileStored(image: seq<byte>, disk: Disk, files: seq<MediaFile>, naming: Naming, i: nat)
    requires Holds(image, disk) && disk.files == Records(files, naming) && i < |files|
    ensures i < ROOT_ENTRIES && ReadFile(image, i) == files[i].data
    ensures naming(files[i].name).Ok? ==> Entry(image, i)[..11] == naming(files[i].name).value
    ensures Storable(files[i], naming) ==>
      FileRight(image, i, Record(naming(files[i].name).value, files[i].data, files[i].attributes))
  {
    FileRecovered(image, disk, i);
    FileFields(image, disk, i);
  }

  lemma {:induction false} SourceDelivered(image: seq<byte>, casing: Casing, source: Source, stored: MediaFile, i: nat)
    requires |image| == IMAGE_SIZE && i < ROOT_ENTRIES && Uppercases(casing)
    requires CompressedFile(source, casing) == Ok(stored) && ReadFile(image, i) == stored.data
    requires DosName(stored.name, casing) == Ok(Entry(image, i)[..11])
    requires FileRight(image, i, Record(Entry(image, i)[..11], stored.data, 0x20))
    ensures Delivered(image, casing, i, source)
  {
    var (name, missing) := CompressedName(source.destination, casing).value;
    SzddSearch.RoundTrip(source.data, missing);
    StoredNameShown(source.destination, casing);
  }

  // The file is there as given, under its own name.
  ghost predicate FileThere(image: seq<byte>, i: nat, file: MediaFile, naming: Naming)
    requires |image| == IMAGE_SIZE && i < ROOT_ENTRIES
  {
    ReadFile(image, i) == file.data && Storable(file, naming)
    && FileRight(image, i, Record(naming(file.name).value, file.data, file.attributes))
  }

  ghost predicate OthersThere(image: seq<byte>, at: nat, others: seq<MediaFile>, naming: Naming)
    requires |image| == IMAGE_SIZE && at + |others| < ROOT_ENTRIES
  {
    forall k | 0 <= k < |others| :: FileThere(image, at + k, others[k], naming)
  }

  // The disk is the second one, by its boot sector and by its label, which entry n is.
  ghost predicate Marked(image: seq<byte>, boot: seq<byte>, n: nat) {
    |image| == IMAGE_SIZE && n < ROOT_ENTRIES && TablesRight(image)
    && BootRight(image, boot, "MSDOS5_2", 0x0500_0002) && LabelRight(image, n, "MSDOS5_2")
  }

  lemma {:induction false} DiskMarked(image: seq<byte>, disk: Disk)
    requires Holds(image, disk) && disk.volume == "MSDOS5_2" && disk.serial == 0x0500_0002
    ensures Marked(image, disk.boot, |disk.files|)
  {
    BootFields(image, disk);
    TableFields(image, disk.files);
    LabelFields(image, |disk.files|, Root(disk.files, |disk.files|), disk.volume);
  }

  ghost predicate SourcesThere(image: seq<byte>, casing: Casing, sources: seq<Source>)
    requires |image| == IMAGE_SIZE && |sources| < ROOT_ENTRIES
  {
    forall i | 0 <= i < |sources| :: Delivered(image, casing, i, sources[i])
  }

  // The disk is marked as the second one; every compressed file can be
  // delivered; the files behind them are there as given, and then there is only the label.
  ghost predicate AllDelivered(image: seq<byte>, casing: Casing, sources: seq<Source>, others: seq<MediaFile>,
                               naming: Naming, boot: seq<byte>)
  {
    |image| == IMAGE_SIZE && |sources| + |others| < ROOT_ENTRIES
    && Marked(image, boot, |sources| + |others|)
    && SourcesThere(image, casing, sources) && OthersThere(image, |sources|, others, naming)
  }

  lemma {:induction false} CompressedDelivered(image: seq<byte>, disk: Disk, files: seq<MediaFile>, naming: Naming,
                                               compressor: Compressor, casing: Casing, source: Source, i: nat)
    requires Holds(image, disk) && disk.files == Records(files, naming) && i < |files| && Storable(files[i], naming)
    requires Compresses(compressor, casing) && Names(naming, casing) && Uppercases(casing)
    requires compressor(source) == Ok(files[i])
    ensures i < ROOT_ENTRIES && Delivered(image, casing, i, source)
  {
    FileStored(image, disk, files, naming, i);
    assert CompressedFile(source, casing) == compressor(source);
    assert DosName(files[i].name, casing) == naming(files[i].name);
    SourceDelivered(image, casing, source, files[i], i);
  }

  lemma {:induction false} FileIsThere(image: seq<byte>, disk: Disk, files: seq<MediaFile>, naming: Naming, i: nat)
    requires Holds(image, disk) && disk.files == Records(files, naming) && i < |files| && Storable(files[i], naming)
    ensures i < ROOT_ENTRIES && FileThere(image, i, files[i], naming)
  {
    FileStored(image, disk, files, naming, i);
  }

  lemma {:induction false} OthersStored(image: seq<byte>, disk: Disk, naming: Naming, files: seq<MediaFile>, at: nat,
                                        others: seq<MediaFile>)
    requires Holds(image, disk) && disk.files == Records(files, naming) && at <= |files| && others == files[at..]
    requires forall i | 0 <= i < |files| :: Storable(files[i], naming)
    requires |image| == IMAGE_SIZE && |files| < ROOT_ENTRIES
    ensures OthersThere(image, at, others, naming)
  {
    forall k | 0 <= k < |others| ensures FileThere(image, at + k, others[k], naming) {
      FileIsThere(image, disk, files, naming, at + k);
    }
  }

  lemma {:induction false} SourcesStored(image: seq<byte>, disk: Disk, naming: Naming, files: seq<MediaFile>,
                                         compressor: Compressor, casing: Casing, sources: seq<Source>)
    requires Holds(image, disk) && disk.files == Records(files, naming)
    requires forall i | 0 <= i < |files| :: Storable(files[i], naming)
    requires Compresses(compressor, casing) && Names(naming, casing) && Uppercases(casing)
    requires |image| == IMAGE_SIZE && |sources| <= |files| < ROOT_ENTRIES
    requires forall i | 0 <= i < |sources| :: compressor(sources[i]) == Ok(files[i])
    ensures SourcesThere(image, casing, sources)
  {
    forall i | 0 <= i < |sources| ensures Delivered(image, casing, i, sources[i]) {
      CompressedDelivered(image, disk, files, naming, compressor, casing, sources[i], i);
    }
  }

  lemma {:induction false} AllThere(image: seq<byte>, casing: Casing, sources: seq<Source>, others: seq<MediaFile>,
                                    naming: Naming, boot: seq<byte>)
    requires Marked(image, boot, |sources| + |others|)
    requires SourcesThere(image, casing, sources) && OthersThere(image, |sources|, others, naming)
    ensures AllDelivered(image, casing, sources, others, naming, boot)
  {
  }

  lemma {:induction false} FilesDelivered(image: seq<byte>, disk: Disk, naming: Naming, compressor: Compressor,
                                          casing: Casing, files: seq<MediaFile>, sources: seq<Source>,
                                          others: seq<MediaFile>)
    requires Holds(image, disk) && disk.files == Records(files, naming) && |image| == IMAGE_SIZE
    requires |files| == |sources| + |others| < ROOT_ENTRIES && others == files[|sources|..]
    requires forall i | 0 <= i < |files| :: Storable(files[i], naming)
    requires Compresses(compressor, casing) && Names(naming, casing) && Uppercases(casing)
    requires forall i | 0 <= i < |sources| :: compressor(sources[i]) == Ok(files[i])
    ensures SourcesThere(image, casing, sources) && OthersThere(image, |sources|, others, naming)
  {
    OthersStored(image, disk, naming, files, |sources|, others);
    SourcesStored(image, disk, naming, files, compressor, casing, sources);
  }

  lemma {:induction false} DiskDelivers(image: seq<byte>, disk: Disk, naming: Naming, casing: Casing,
                                        sources: seq<Source>, others: seq<MediaFile>)
    requires Holds(image, disk) && disk.volume == "MSDOS5_2" && disk.serial == 0x0500_0002 && |image| == IMAGE_SIZE
    requires |disk.files| == |sources| + |others| < ROOT_ENTRIES
    requires SourcesThere(image, casing, sources) && OthersThere(image, |sources|, others, naming)
    ensures AllDelivered(image, casing, sources, others, naming, disk.boot)
  {
    DiskMarked(image, disk);
    AllThere(image, casing, sources, others, naming, disk.boot);
  }

  method BuildSecondDisk(sources: seq<Source>, casing: Casing, ghost compressor: Compressor, taken: set<string>,
                         others: seq<MediaFile>, naming: Naming, boot: seq<byte>)
    returns (r: Result<seq<byte>>)
    requires Compresses(compressor, casing) && Names(naming, casing) && Uppercases(casing)
    ensures var fault := SecondDiskFault(sources, compressor, taken, others, naming, boot);
      if fault.Some? then r == Err(fault.value)
      else r.Ok? && AllDelivered(r.value, casing, sources, others, naming, boot)
  {
    var compressed := CompressFiles(sources, casing, compressor, taken);
    if compressed.Err? {
      return Err(compressed.error);
    }
    var files := compressed.value + others;
    r := BuildImage(files, naming, boot, VOLUME, SERIAL);
    if r.Ok? {
      Accepted(files, naming, boot, VOLUME, SERIAL);
      var disk := Disk(Records(files, naming), boot, VOLUME, SERIAL);
      FilesDelivered(r.value, disk, naming, compressor, casing, files, sources, others);
      DiskDelivers(r.value, disk, naming, casing, sources, others);
    }
  }

  // The disk as the source builds it: compressed by the encoder, named by DosName.  It is
  // built exactly when nothing is at fault, and then it delivers everything.
  method SecondDisk(sources: seq<Source>, casing: Casing, taken: set<string>, others: seq<MediaFile>, boot: seq<byte>)
    returns (r: Result<seq<byte>>)
    requires Uppercases(casing)
    ensures var compressor, naming := (s: Source) => CompressedFile(s, casing), (n: string) => DosName(n, casing);
      var fault := SecondDiskFault(sources, compressor, taken, others, naming, boot);
      if fault.Some? then r == Err(fault.value)
      else r.Ok? && AllDelivered(r.value, casing, sources, others, naming, boot)
  {
    r := BuildSecondDisk(sources, casing, s => CompressedFile(s, casing), taken, others, n => DosName(n, casing), boot);
  }
}
