/** 12-bit file allocation table entries, two of which share three bytes. */
module Fat12 {
  import opened Bytes

  function EntryOffset(cluster: nat): nat { cluster + cluster / 2 }

  predicate InFat(fat: seq<byte>, cluster: nat) { EntryOffset(cluster) + 1 < |fat| }

  // The entry of a cluster, as the FAT data structure defines it.
  function GetEntry(fat: seq<byte>, cluster: nat): (v: nat)
    requires InFat(fat, cluster)
    ensures v < 0x1000
  {
    var low, high := fat[EntryOffset(cluster)] as nat, fat[EntryOffset(cluster) + 1] as nat;
    if cluster % 2 == 1 then low / 16 + high * 16 else low + high % 16 * 256
  }

  function WithEntry(fat: seq<byte>, cluster: nat, value: nat): (r: seq<byte>)
    requires InFat(fat, cluster) && value < 0x1000
    ensures |r| == |fat|
  {
    var o := EntryOffset(cluster);
    if cluster % 2 == 1 then fat[o := fat[o] as nat % 16 + value % 16 * 16][o + 1 := value / 16]
    else fat[o := value % 256][o + 1 := fat[o + 1] as nat / 16 * 16 + value / 256]
  }

  // Two entries are one number of three bytes, the lowest byte first.
  lemma {:induction false} PairRead(fat: seq<byte>, cluster: nat)
    requires cluster % 2 == 0 && InFat(fat, cluster + 1)
    ensures var at := 3 * (cluster / 2);
      fat[at] as nat + 0x100 * fat[at + 1] as nat + 0x1_0000 * fat[at + 2] as nat
      == GetEntry(fat, cluster) + 0x1000 * GetEntry(fat, cluster + 1)
  {
    assert EntryOffset(cluster) == 3 * (cluster / 2) && EntryOffset(cluster + 1) == EntryOffset(cluster) + 1;
  }

  lemma {:induction false} EntryRead(fat: seq<byte>, cluster: nat, value: nat)
    requires InFat(fat, cluster) && value < 0x1000
    ensures GetEntry(WithEntry(fat, cluster, value), cluster) == value
  {
  }

  // Setting one entry changes no other, although neighbours share a byte.
  lemma {:induction false} OtherEntry(fat: seq<byte>, cluster: nat, value: nat, other: nat)
    requires InFat(fat, cluster) && InFat(fat, other) && value < 0x1000 && other != cluster
    ensures GetEntry(WithEntry(fat, cluster, value), other) == GetEntry(fat, other)
  {
    var o, p := EntryOffset(cluster), EntryOffset(other);
    if other == cluster + 1 {
      SharedByte(fat, cluster, value);
    } else if cluster == other + 1 {
      SharedByte(fat, other, value);
    } else if other > cluster {
      assert p >= o + 2;
    } else {
      assert o >= p + 2;
    }
  }

  lemma {:induction false} SharedByte(fat: seq<byte>, cluster: nat, value: nat)
    requires InFat(fat, cluster + 1) && value < 0x1000
    ensures GetEntry(WithEntry(fat, cluster, value), cluster + 1) == GetEntry(fat, cluster + 1)
    ensures GetEntry(WithEntry(fat, cluster + 1, value), cluster) == GetEntry(fat, cluster)
  {
    if cluster % 2 == 0 {
      assert EntryOffset(cluster + 1) == EntryOffset(cluster) + 1;
    } else {
      assert EntryOffset(cluster + 1) == EntryOffset(cluster) + 2;
    }
  }

  method SetFat12(fat: array<byte>, cluster: nat, value: nat)
    requires InFat(fat[..], cluster) && value < 0x1000
    modifies fat
    ensures fat[..] == WithEntry(old(fat[..]), cluster, value)
  {
    var offset := cluster + cluster / 2;
    if cluster % 2 == 1 {
      fat[offset] := fat[offset] as nat % 16 + value % 16 * 16;
      fat[offset + 1] := value / 16;
    } else {
      fat[offset] := value % 256;
      fat[offset + 1] := fat[offset + 1] as nat / 16 * 16 + value / 256;
    }
  }

  // ----- chains

  // Clusters `first` to first + n - 1 are linked in order, and the last one ends the chain.
  ghost predicate ChainAt(fat: seq<byte>, first: nat, n: nat) {
    forall c | first <= c < first + n ::
      InFat(fat, c) && GetEntry(fat, c) == if c + 1 == first + n then 0xFFF else c + 1
  }

  // The clusters of a file, found by following the table; 0xFF8 and above end a chain.
  function Follow(fat: seq<byte>, cluster: nat, steps: nat): seq<nat>
    decreases steps
  {
    if cluster < 2 || cluster >= 0xFF8 || steps == 0 || !InFat(fat, cluster) then []
    else [cluster] + Follow(fat, GetEntry(fat, cluster), steps - 1)
  }

  lemma {:induction false} FollowChain(fat: seq<byte>, first: nat, n: nat, steps: nat)
    requires n > 0 && ChainAt(fat, first, n) && 2 <= first && first + n <= 0xFF8 && n < steps
    ensures Follow(fat, first, steps) == seq(n, i requires 0 <= i => first + i)
    decreases n
  {
    assert GetEntry(fat, first) == if 1 == n then 0xFFF else first + 1;
    if n > 1 {
      FollowChain(fat, first + 1, n - 1, steps - 1);
    } else {
      assert Follow(fat, 0xFFF, steps - 1) == [];
    }
  }
}
