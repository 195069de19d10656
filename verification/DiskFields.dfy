/**
  The fields of a disk image at their places, as numbers: what a system relies on that knows
  nothing of how the image was made.
 */
module DiskFields {
  import opened Bytes
  import opened Fat12
  import opened DiskNames
  import opened DiskLayout

  function Word(s: seq<byte>, at: nat): nat
    requires at + 2 <= |s|
  {
    s[at] as nat + 0x100 * s[at + 1] as nat
  }

  function Long(s: seq<byte>, at: nat): nat
    requires at + 4 <= |s|
  {
    Word(s, at) + 0x1_0000 * Word(s, at + 2)
  }

  // The text, padded with spaces.
  ghost predicate TextAt(s: seq<byte>, at: nat, text: string, width: nat)
    requires at + width <= |s|
  {
    forall i | 0 <= i < width :: s[at + i] as int == if i < |text| then text[i] as int else 0x20
  }

  // ----- the boot sector

  // The parameters of a disk of 2880 sectors of 512 bytes: one sector to a cluster, one
  // reserved, two tables of nine sectors, 224 directory entries, eighteen sectors to a track
  // and two heads; its label and serial number; and the rest as in `boot`.
  ghost predicate BootRight(s: seq<byte>, boot: seq<byte>, volume: string, serial: int) {
    |s| >= 512 && |boot| == 512
    && ParametersRight(s) && s[38] == 0x29 && Long(s, 39) == serial
    && TextAt(s, 43, volume, 11) && TextAt(s, 54, "FAT12", 8)
    && s[510] == 0x55 && s[511] == 0xAA && s[..11] == boot[..11] && s[37] == boot[37] && s[62..510] == boot[62..510]
  }

  predicate ParametersRight(s: seq<byte>)
    requires |s| >= 512
  {
    Word(s, 11) == 512 && s[13] == 1 && Word(s, 14) == 1 && s[16] == 2 && Word(s, 17) == 224 && Word(s, 19) == 2880
    && s[21] == 0xF0 && Word(s, 22) == 9 && Word(s, 24) == 18 && Word(s, 26) == 2
    && Long(s, 28) == 0 && Long(s, 32) == 0 && s[36] == 0
  }

  lemma {:induction false} GeometryFields(boot: seq<byte>, rest: seq<byte>)
    requires |boot| == 512 && |rest| == 475
    ensures var s := Geometry(boot) + rest;
      ParametersRight(s) && s[..11] == boot[..11] && s[37..] == rest
  {
    var s := Geometry(boot) + rest;
    assert s[37..] == rest;
    GeometryBytes(boot);
    assert s[..37] == Geometry(boot);
  }

  lemma {:induction false} GeometryBytes(boot: seq<byte>)
    requires |boot| == 512
    ensures Geometry(boot)
      == boot[..11] + [0, 2, 1, 1, 0, 2, 224, 0, 0x40, 0x0B, 0xF0, 9, 0, 18, 0, 2, 0, 0, 0, 0, 0, 0, 0, 0, 0, 0]
  {
  }

  lemma {:induction false} Identification(boot: seq<byte>, volume: string, serial: nat, rest: seq<byte>)
    requires |boot| == 512 && Ascii(volume) && |volume| <= 11 && serial < 0x1_0000_0000
    requires rest == boot[37..38] + [0x29] + Le32(serial) + AsciiBytes(PadRight(volume, 11)) + AsciiBytes("FAT12   ")
                     + boot[62..510] + [0x55, 0xAA]
    ensures |rest| == 475 && rest[0] == boot[37] && rest[1] == 0x29 && rest[2..6] == Le32(serial)
    ensures rest[6..17] == AsciiBytes(PadRight(volume, 11)) && rest[17..25] == AsciiBytes("FAT12   ")
    ensures rest[25..473] == boot[62..510] && rest[473] == 0x55 && rest[474] == 0xAA
  {
  }

  lemma {:induction false} PaddedText(volume: string, width: nat, i: nat)
    requires Ascii(volume) && |volume| <= width && i < width
    ensures AsciiBytes(PadRight(volume, width))[i] as int == if i < |volume| then volume[i] as int else 0x20
  {
  }

  lemma {:induction false} SectorFields(boot: seq<byte>, volume: string, serial: nat)
    requires |boot| == 512 && Ascii(volume) && |volume| <= 11 && serial < 0x1_0000_0000
    ensures BootRight(BootSector(boot, volume, serial), boot, volume, serial)
  {
    var rest := boot[37..38] + [0x29] + Le32(serial) + AsciiBytes(PadRight(volume, 11)) + AsciiBytes("FAT12   ")
                + boot[62..510] + [0x55, 0xAA];
    var s := BootSector(boot, volume, serial);
    assert s == Geometry(boot) + rest;
    Identification(boot, volume, serial, rest);
    GeometryFields(boot, rest);
    RestFields(s, rest, boot, volume, serial);
  }

  lemma {:induction false} RestFields(s: seq<byte>, rest: seq<byte>, boot: seq<byte>, volume: string, serial: nat)
    requires |boot| == 512 && Ascii(volume) && |volume| <= 11 && serial < 0x1_0000_0000
    requires |s| == 512 && s[37..] == rest && |rest| == 475 && rest[2..6] == Le32(serial)
    requires rest[6..17] == AsciiBytes(PadRight(volume, 11)) && rest[17..25] == AsciiBytes("FAT12   ")
    requires rest[25..473] == boot[62..510] && rest[473] == 0x55 && rest[474] == 0xAA
    ensures s[37] == rest[0] && s[38] == rest[1] && s[510] == 0x55 && s[511] == 0xAA
    ensures Long(s, 39) == serial && TextAt(s, 43, volume, 11) && TextAt(s, 54, "FAT12", 8)
    ensures s[62..510] == boot[62..510]
  {
    Le32RoundTrip(serial);
    forall k | 37 <= k < 512 ensures s[k] == rest[k - 37] {
      assert s[37..][k - 37] == s[k];
    }
    assert forall k | 0 <= k < 4 :: s[39 + k] == rest[2..6][k];
    forall i | 0 <= i < 11 ensures s[43 + i] as int == if i < |volume| then volume[i] as int else 0x20 {
      assert s[43 + i] == rest[6..17][i];
      PaddedText(volume, 11, i);
    }
    forall i | 0 <= i < 8 ensures s[54 + i] as int == if i < |"FAT12"| then "FAT12"[i] as int else 0x20 {
      assert s[54 + i] == rest[17..25][i];
      assert AsciiBytes("FAT12   ")[i] as int == "FAT12   "[i] as int;
    }
    assert s[62..510] == rest[25..473];
  }

  // ----- the directory

  // Entry i of the directory, which starts at byte 9728.
  predicate EntryRight(image: seq<byte>, i: nat, attributes: int, first: nat, size: nat)
    requires |image| == 1474560 && i < 224
  {
    var at := 9728 + 32 * i;
    image[at + 11] as int == attributes && (forall k | at + 12 <= k < at + 22 :: image[k] == 0)
    && Word(image, at + 22) == 0 && Dated(Word(image, at + 24)) && Word(image, at + 26) == first
    && Long(image, at + 28) == size
  }

  // The eleventh of June 1991.
  predicate Dated(date: nat) {
    date / 512 + 1980 == 1991 && date / 32 % 16 == 6 && date % 32 == 11
  }

  lemma {:induction false} EntryFields(image: seq<byte>, i: nat, name: NameField, attributes: byte, first: nat,
                                       size: nat)
    requires |image| == 1474560 && i < 224 && first < 0x1_0000 && size < 0x1_0000_0000
    requires Entry(image, i) == DirEntry(name, attributes, first, size)
    ensures EntryRight(image, i, attributes, first, size)
    ensures image[9728 + 32 * i..9728 + 32 * i + 11] == name
  {
    var at, e := 9728 + 32 * i, DirEntry(name, attributes, first, size);
    assert Entry(image, i) == image[at..at + 32];
    forall k | 0 <= k < 32 ensures image[at + k] == e[k] {
      assert image[at..at + 32][k] == e[k];
    }
    EntryBytes(name, attributes, first, size);
    forall k | at + 12 <= k < at + 22 ensures image[k] == 0 {
      assert image[at + (k - at)] == e[k - at];
    }
    assert image[at..at + 11] == e[..11];
  }

  lemma {:induction false} EntryBytes(name: NameField, attributes: byte, first: nat, size: nat)
    requires first < 0x1_0000 && size < 0x1_0000_0000
    ensures var e := DirEntry(name, attributes, first, size);
      e[..11] == name && e[11] == attributes && (forall k | 12 <= k < 22 :: e[k] == 0)
      && Word(e, 22) == 0 && Dated(Word(e, 24)) && Word(e, 26) == first && Long(e, 28) == size
  {
    var e := DirEntry(name, attributes, first, size);
    var a, b := name + [attributes] + Zeros(10), Le16(FIXED_TIME) + Le16(FIXED_DATE) + Le16(first) + Le32(size);
    assert e == a + b;
    assert forall k | 22 <= k < 32 :: e[k] == b[k - 22];
    Le16RoundTrip(first);
    Le32RoundTrip(size);
  }

  // Behind the files' entries stands the label, and nothing else.
  ghost predicate LabelRight(image: seq<byte>, i: nat, volume: string)
    requires |image| == 1474560 && i < 224
  {
    EntryRight(image, i, 0x08, 0, 0) && TextAt(image, 9728 + 32 * i, volume, 11)
    && forall k | 9728 + 32 * (i + 1) <= k < 16896 :: image[k] == 0
  }

  lemma {:induction false} LabelFields(image: seq<byte>, i: nat, root: seq<byte>, volume: string)
    requires |image| == 1474560 && i < 224 && |root| == 32 * i && Ascii(volume) && |volume| <= 11
    requires image[9728..16896] == root + LabelEntry(volume) + Zeros(7168 - 32 * (i + 1))
    ensures LabelRight(image, i, volume)
  {
    var at, all := 9728 + 32 * i, image[9728..16896];
    EntryInDirectory(image, all, root + LabelEntry(volume), i);
    assert (root + LabelEntry(volume))[32 * i..32 * i + 32] == LabelEntry(volume);
    EntryFields(image, i, AsciiBytes(PadRight(volume, 11)), 0x08, 0, 0);
    forall j | 0 <= j < 11 ensures image[at + j] as int == if j < |volume| then volume[j] as int else 0x20 {
      assert image[at..at + 11][j] == image[at + j];
      PaddedText(volume, 11, j);
    }
    forall k | at + 32 <= k < 16896 ensures image[k] == 0 {
      assert image[k] == all[k - 9728];
    }
  }

  // ----- the tables and the files

  // The two tables are alike and start with the entries of a floppy disk.
  predicate TablesRight(image: seq<byte>)
    requires |image| == 1474560
  {
    image[512..5120] == image[5120..9728] && image[512..515] == [0xF0, 0xFF, 0xFF]
  }

  lemma {:induction false} TableFields(image: seq<byte>, files: seq<Record>)
    requires |image| == 1474560 && TablesHold(image, files)
    ensures TablesRight(image)
  {
    var fat, entries := FatCopy(image, 0), RESERVED_ENTRIES + Chains(files, |files|);
    assert fat == image[512..5120] && FatCopy(image, 1) == image[5120..9728];
    assert GetEntry(fat, 0) == entries[0] == 0xFF0 && GetEntry(fat, 1) == entries[1] == 0xFFF;
    PairRead(fat, 0);
    assert fat[0] == 0xF0 && fat[1] == 0xFF && fat[2] == 0xFF;
    assert image[512..515] == fat[..3];
  }

  // The n clusters of some bytes, one behind the other and linked, with zeros behind the
  // bytes; cluster 2 is sector 33.
  ghost predicate Stands(image: seq<byte>, first: nat, data: seq<byte>)
    requires |image| == 1474560
  {
    var n, fat := (|data| + 511) / 512, image[512..5120];
    if n == 0 then first == 0
    else
      2 <= first && first + n <= 2849 && image[512 * (31 + first)..512 * (31 + first) + |data|] == data
      && (forall k | 512 * (31 + first) + |data| <= k < 512 * (31 + first + n) :: image[k] == 0)
      && forall c | first <= c < first + n :: GetEntry(fat, c) == if c + 1 == first + n then 0xFFF else c + 1
  }

  lemma {:induction false} FileStands(image: seq<byte>, disk: Disk, i: nat)
    requires Holds(image, disk) && i < |disk.files|
    ensures Stands(image, First(disk.files, i), disk.files[i].data)
  {
    var files := disk.files;
    var used, n, data := Used(files, i), Clusters(|files[i].data|), files[i].data;
    FileInArea(files, i);
    AreaFirst(image, files);
    RunInArea(image, image[DATA_AT..], Area(files, |files|), used, n);
    assert Extent(image, 2 + used, n) == Padded(data);
    FileChain(FatCopy(image, 0), files, i);
    assert FatCopy(image, 0) == image[512..5120];
    BytesStand(image, used, n, data);
  }

  lemma {:induction false} BytesStand(image: seq<byte>, used: nat, n: nat, data: seq<byte>)
    requires |image| == 1474560 && n == Clusters(|data|) && used + n <= DATA_CLUSTERS
    requires Extent(image, 2 + used, n) == Padded(data)
    ensures image[512 * (33 + used)..512 * (33 + used) + |data|] == data
    ensures forall k | 512 * (33 + used) + |data| <= k < 512 * (33 + used + n) :: image[k] == 0
  {
    var at := 512 * (33 + used);
    var extent := image[at..at + 512 * n];
    assert Extent(image, 2 + used, n) == extent;
    assert image[at..at + |data|] == extent[..|data|];
    forall k | at + |data| <= k < at + 512 * n ensures image[k] == 0 {
      assert image[k] == extent[k - at];
    }
  }

  // The sectors of free clusters are empty.
  lemma {:induction false} FreeSectorEmpty(image: seq<byte>, disk: Disk, c: nat, k: nat)
    requires Holds(image, disk) && 2 <= c < 2849 && GetEntry(image[512..5120], c) == 0
    requires 512 * (31 + c) <= k < 512 * (32 + c)
    ensures image[k] == 0
  {
    var files := disk.files;
    assert FatCopy(image, 0) == image[512..5120];
    FreeBehind(FatCopy(image, 0), files, c);
    var used := Used(files, |files|);
    BehindArea(image, image[DATA_AT..], Area(files, |files|), IMAGE_SIZE - DATA_AT - 512 * used, k - DATA_AT);
  }

  lemma {:induction false} FreeBehind(fat: seq<byte>, files: seq<Record>, c: nat)
    requires Table(fat, RESERVED_ENTRIES + Chains(files, |files|)) && Used(files, |files|) <= DATA_CLUSTERS
    requires 2 <= c < DATA_CLUSTERS + 2 && GetEntry(fat, c) == 0
    ensures c - 2 >= Used(files, |files|)
  {
    if c - 2 < Used(files, |files|) {
      var i := OwnerOf(files, |files|, c - 2);
      RunMembers(2 + Used(files, i), Clusters(|files[i].data|), c);
      assert c in RunOf(files, i);
      FreeOrOwned(fat, files, c);
    }
  }

  lemma {:induction false} BehindArea(image: seq<byte>, data: seq<byte>, area: seq<byte>, rest: nat, k: nat)
    requires |image| == IMAGE_SIZE && data == image[DATA_AT..] && data == area + Zeros(rest) && |area| <= k < |data|
    ensures image[DATA_AT + k] == 0
  {
    assert data[k] == image[DATA_AT + k];
  }

  // ----- the whole disk

  ghost predicate FileRight(image: seq<byte>, i: nat, file: Record)
    requires |image| == 1474560 && i < 224
  {
    image[9728 + 32 * i..9728 + 32 * i + 11] == file.name
    && exists first: nat :: EntryRight(image, i, file.attributes, first, |file.data|) && Stands(image, first, file.data)
  }

  // Every field of an image that holds a disk is right.
  ghost predicate DiskRight(image: seq<byte>, disk: Disk) {
    |image| == 1474560 && |disk.files| < 224
    && BootRight(image, disk.boot, disk.volume, disk.serial) && TablesRight(image)
    && LabelRight(image, |disk.files|, disk.volume)
    && forall i | 0 <= i < |disk.files| :: FileRight(image, i, disk.files[i])
  }

  lemma {:induction false} FileFields(image: seq<byte>, disk: Disk, i: nat)
    requires Holds(image, disk) && i < |disk.files|
    ensures FileRight(image, i, disk.files[i])
  {
    var file := disk.files[i];
    EntryOfFile(image, disk, i);
    EntryFields(image, i, file.name, file.attributes, First(disk.files, i), |file.data|);
    FileStands(image, disk, i);
  }

  lemma {:induction false} BootFields(image: seq<byte>, disk: Disk)
    requires Holds(image, disk)
    ensures BootRight(image, disk.boot, disk.volume, disk.serial)
  {
    SectorFields(disk.boot, disk.volume, disk.serial);
    BootPrefix(image, image[..512], disk.boot, disk.volume, disk.serial);
  }

  lemma {:induction false} BootPrefix(image: seq<byte>, s: seq<byte>, boot: seq<byte>, volume: string, serial: int)
    requires |image| >= 512 && s == image[..512] && BootRight(s, boot, volume, serial)
    ensures BootRight(image, boot, volume, serial)
  {
    assert forall k | 0 <= k < 512 :: image[k] == s[k];
    assert image[..11] == s[..11] && image[62..510] == s[62..510];
  }

  lemma {:induction false} DiskFieldsRight(image: seq<byte>, disk: Disk)
    requires Holds(image, disk)
    ensures DiskRight(image, disk)
  {
    BootFields(image, disk);
    TableFields(image, disk.files);
    LabelFields(image, |disk.files|, Root(disk.files, |disk.files|), disk.volume);
    forall i | 0 <= i < |disk.files| ensures FileRight(image, i, disk.files[i]) {
      FileFields(image, disk, i);
    }
  }
}
