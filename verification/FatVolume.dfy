/**
 The FAT32 volume of kernel/fs/Fat.c: sectors, the file allocation table stored in
 them, the data clusters and the in-memory bitmap of used clusters.  Every sector
 is where fat_sec_of_clus and first_sec_of_clus put it; `Vol` is the volume read
 as a table of entries and a table of clusters.
 */
module FatVolume {
  import opened Bytes
  import opened Bitmap

  const BSIZE: nat := 512
  const EOC: nat := 0x0ffffff8
  const ENTRY_LIMIT: nat := 0x10000000

  /** The fields of the boot sector that place things on the disk. */
  datatype Geometry = Geometry(reserved: nat, fatSectors: nat, fatCount: nat, secPerClus: nat, dataClusters: nat)

  function FirstDataSec(g: Geometry): nat { g.reserved + g.fatCount * g.fatSectors }
  function BytesPerClus(g: Geometry): nat { g.secPerClus * BSIZE }
  function Entries(g: Geometry): nat { g.fatSectors * 128 }
  function FirstSecOfClus(g: Geometry, c: int): int { (c - 2) * g.secPerClus + FirstDataSec(g) }
  function FatSecOfClus(g: Geometry, c: int): int { g.reserved + c * 4 / BSIZE }
  function FatOffsetOfClus(c: int): int { c * 4 % BSIZE }

  predicate GeometryOk(g: Geometry) {
    g.secPerClus >= 1 && g.fatCount >= 1 && g.dataClusters + 2 <= Entries(g) && g.dataClusters + 2 <= EOC
  }

  predicate IsData(g: Geometry, c: int) { 2 <= c < g.dataClusters + 2 }

  ghost predicate DiskOk(g: Geometry, disk: seq<seq<Byte>>) {
    && GeometryOk(g)
    && |disk| >= FirstDataSec(g) + g.dataClusters * g.secPerClus
    && (forall s :: 0 <= s < |disk| ==> |disk[s]| == BSIZE)
  }

  // ---------- where things are ----------

  lemma FatPlace(g: Geometry, c: int)
    requires GeometryOk(g) && 0 <= c < Entries(g)
    ensures FatSecOfClus(g, c) == g.reserved + c / 128 && FatOffsetOfClus(c) == 4 * (c % 128)
    ensures g.reserved <= FatSecOfClus(g, c) < g.reserved + g.fatSectors <= FirstDataSec(g)
    ensures FatOffsetOfClus(c) + 4 <= BSIZE
  {
    assert c == c / 128 * 128 + c % 128;
    assert c * 4 == c / 128 * 512 + 4 * (c % 128);
    assert c / 128 < g.fatSectors;
    FatCopies(g.fatCount, g.fatSectors);
  }

  lemma FatCopies(n: nat, m: nat)
    requires n >= 1
    ensures m <= n * m
  {
  }

  lemma ClusterPlace(g: Geometry, c: int, i: int)
    requires GeometryOk(g) && IsData(g, c) && 0 <= i < g.secPerClus
    ensures FirstDataSec(g) <= FirstSecOfClus(g, c) + i < FirstDataSec(g) + g.dataClusters * g.secPerClus
  {
    Scaled(c - 2, g.dataClusters - 1, g.secPerClus);
    assert (g.dataClusters - 1) * g.secPerClus + g.secPerClus == g.dataClusters * g.secPerClus;
  }

  lemma Scaled(a: int, b: int, n: nat)
    requires 0 <= a <= b
    ensures 0 <= a * n <= b * n
  {
    assert b * n == a * n + (b - a) * n;
  }

  /** Two clusters share no sector. */
  lemma ClustersApart(g: Geometry, c: int, i: int, d: int, j: int)
    requires GeometryOk(g) && IsData(g, c) && IsData(g, d) && 0 <= i < g.secPerClus && 0 <= j < g.secPerClus
    requires FirstSecOfClus(g, c) + i == FirstSecOfClus(g, d) + j
    ensures c == d && i == j
  {
    if c < d {
      assert (c - 1) * g.secPerClus == (c - 2) * g.secPerClus + g.secPerClus;
      Scaled(c - 1, d - 2, g.secPerClus);
    } else if d < c {
      assert (d - 1) * g.secPerClus == (d - 2) * g.secPerClus + g.secPerClus;
      Scaled(d - 1, c - 2, g.secPerClus);
    }
  }

  ghost predicate InCluster(g: Geometry, c: int, s: int) {
    IsData(g, c) && FirstSecOfClus(g, c) <= s < FirstSecOfClus(g, c) + g.secPerClus
  }

  /** The data clusters divide up the sectors behind the copies of the FAT. */
  lemma DataAreaDivided(g: Geometry, s: int)
    requires GeometryOk(g)
    ensures var base := g.reserved + g.fatCount * g.fatSectors;
            base <= s < base + g.dataClusters * g.secPerClus <==> exists c :: InCluster(g, c, s)
    ensures forall c, d :: InCluster(g, c, s) && InCluster(g, d, s) ==> c == d
  {
    var base := g.reserved + g.fatCount * g.fatSectors;
    forall c | InCluster(g, c, s) ensures base <= s < base + g.dataClusters * g.secPerClus {
      ClusterPlace(g, c, s - FirstSecOfClus(g, c));
    }
    forall c, d | InCluster(g, c, s) && InCluster(g, d, s) ensures c == d {
      ClustersApart(g, c, s - FirstSecOfClus(g, c), d, s - FirstSecOfClus(g, d));
    }
    if base <= s < base + g.dataClusters * g.secPerClus {
      var q, r := (s - base) / g.secPerClus, (s - base) % g.secPerClus;
      assert s - base == q * g.secPerClus + r;
      if q >= g.dataClusters {
        Scaled(g.dataClusters, q, g.secPerClus);
      }
      assert InCluster(g, q + 2, s);
    }
  }

  // ---------- reading the disk as tables ----------

  function SectorByte(disk: seq<seq<Byte>>, s: int, o: int): Byte {
    if 0 <= s < |disk| && 0 <= o < |disk[s]| then disk[s][o] else 0
  }

  function Word32(disk: seq<seq<Byte>>, s: int, o: int): (n: nat)
  {
    FromBytes([SectorByte(disk, s, o), SectorByte(disk, s, o + 1), SectorByte(disk, s, o + 2),
              SectorByte(disk, s, o + 3)])
  }

  function FatEntry(g: Geometry, disk: seq<seq<Byte>>, c: int): nat {
    Word32(disk, FatSecOfClus(g, c), FatOffsetOfClus(c))
  }

  function ClusterByte(g: Geometry, disk: seq<seq<Byte>>, c: int, k: int): Byte {
    SectorByte(disk, FirstSecOfClus(g, c) + k / BSIZE, k % BSIZE)
  }

  function ClusterBytes(g: Geometry, disk: seq<seq<Byte>>, c: int): (b: seq<Byte>)
    ensures |b| == BytesPerClus(g)
  {
    seq<Byte>(BytesPerClus(g), k => ClusterByte(g, disk, c, k))
  }

  /** The volume as the file layer sees it. */
  datatype Vol = Vol(fat: seq<nat>, data: seq<seq<Byte>>, used: seq<bool>)

  function VolOf(g: Geometry, disk: seq<seq<Byte>>, bits: seq<bool>): Vol {
    Vol(seq(Entries(g), c => FatEntry(g, disk, c)),
        seq(g.dataClusters + 2, c => DataAt(g, disk, c)), bits)
  }

  /** The contents of a data cluster; numbers 0 and 1 name none. */
  function DataAt(g: Geometry, disk: seq<seq<Byte>>, c: int): (b: seq<Byte>)
    ensures |b| == BytesPerClus(g)
  {
    if IsData(g, c) then ClusterBytes(g, disk, c) else seq<Byte>(BytesPerClus(g), k => 0)
  }

  /** A bitmap bit is set exactly when its FAT entry is not zero; the two entries before
      the data area are reserved. */
  ghost predicate VolInv(g: Geometry, v: Vol) {
    && GeometryOk(g)
    && |v.fat| == |v.used| == Entries(g) && |v.data| == g.dataClusters + 2
    && (forall c :: 0 <= c < |v.fat| ==> (v.used[c] <==> v.fat[c] != 0))
    && (forall c :: 0 <= c < |v.fat| && c < 2 ==> v.fat[c] != 0)
    && (forall c :: 0 <= c < |v.fat| ==> v.fat[c] < ENTRY_LIMIT)
    && (forall c :: 0 <= c < |v.data| ==> |v.data[c]| == BytesPerClus(g))
  }

  // ---------- writing an entry ----------

  function PutSector(disk: seq<seq<Byte>>, s: int, o: int, data: seq<Byte>): (d: seq<seq<Byte>>)
    requires 0 <= s < |disk| && 0 <= o && o + |data| <= |disk[s]|
    ensures |d| == |disk| && forall x :: 0 <= x < |disk| ==> |d[x]| == |disk[x]|
  {
    disk[s := Patch(disk[s], o, data)]
  }

  lemma PutSectorByte(disk: seq<seq<Byte>>, s: int, o: int, data: seq<Byte>, s': int, o': int)
    requires 0 <= s < |disk| && 0 <= o && o + |data| <= |disk[s]|
    ensures SectorByte(PutSector(disk, s, o, data), s', o') ==
            if s' == s && o <= o' < o + |data| then data[o' - o] else SectorByte(disk, s', o')
  {
  }

  lemma PutEntryRead(g: Geometry, disk: seq<seq<Byte>>, c: int, n: nat, d: int)
    requires DiskOk(g, disk) && 0 <= c < Entries(g) && 0 <= d < Entries(g) && n < 0x1_0000_0000
    ensures 0 <= FatSecOfClus(g, c) < |disk| && FatOffsetOfClus(c) + 4 <= |disk[FatSecOfClus(g, c)]|
    ensures var disk' := PutSector(disk, FatSecOfClus(g, c), FatOffsetOfClus(c), ToBytes(n, 4));
            FatEntry(g, disk', d) == if d == c then n else FatEntry(g, disk, d)
  {
    hide ToBytes, FromBytes, PutSector;
    FatPlace(g, c);
    FatPlace(g, d);
    var s, o, b := FatSecOfClus(g, c), FatOffsetOfClus(c), ToBytes(n, 4);
    var s', o' := FatSecOfClus(g, d), FatOffsetOfClus(d);
    var disk' := PutSector(disk, s, o, b);
    assert SectorByte(disk', s', o') == (if d == c then b[0] else SectorByte(disk, s', o')) by {
      PutEntryByte(g, disk, c, b, d, 0);
    }
    assert SectorByte(disk', s', o' + 1) == (if d == c then b[1] else SectorByte(disk, s', o' + 1)) by {
      PutEntryByte(g, disk, c, b, d, 1);
    }
    assert SectorByte(disk', s', o' + 2) == (if d == c then b[2] else SectorByte(disk, s', o' + 2)) by {
      PutEntryByte(g, disk, c, b, d, 2);
    }
    assert SectorByte(disk', s', o' + 3) == (if d == c then b[3] else SectorByte(disk, s', o' + 3)) by {
      PutEntryByte(g, disk, c, b, d, 3);
    }
    if d == c {
      assert [b[0], b[1], b[2], b[3]] == b;
      EntryRoundTrip(n, 4);
    }
  }

  lemma PutEntryByte(g: Geometry, disk: seq<seq<Byte>>, c: int, b: seq<Byte>, d: int, k: int)
    requires DiskOk(g, disk) && 0 <= c < Entries(g) && 0 <= d < Entries(g) && |b| == 4 && 0 <= k < 4
    requires 0 <= FatSecOfClus(g, c) < |disk| && FatOffsetOfClus(c) + 4 <= BSIZE
    ensures SectorByte(PutSector(disk, FatSecOfClus(g, c), FatOffsetOfClus(c), b), FatSecOfClus(g, d),
                       FatOffsetOfClus(d) + k) ==
            if d == c then b[k] else SectorByte(disk, FatSecOfClus(g, d), FatOffsetOfClus(d) + k)
  {
    FatPlace(g, c);
    FatPlace(g, d);
    PutSectorByte(disk, FatSecOfClus(g, c), FatOffsetOfClus(c), b, FatSecOfClus(g, d), FatOffsetOfClus(d) + k);
    if d != c { SameEntry(c, d, k); }
  }

  lemma EntryRoundTrip(n: nat, k: nat)
    requires n < 0x1_0000_0000 && k == 4
    ensures FromBytes(ToBytes(n, k)) == n
  {
    assert Pow256(4) == 0x1_0000_0000;
    NumberRoundTrip(n, k);
  }

  lemma SameEntry(c: int, d: int, k: int)
    requires 0 <= c && 0 <= d && 0 <= k < 4 && c != d
    ensures c / 128 == d / 128 ==> !(4 * (c % 128) <= 4 * (d % 128) + k < 4 * (c % 128) + 4)
  {
  }

  lemma PutEntryData(g: Geometry, disk: seq<seq<Byte>>, c: int, b: seq<Byte>, d: int)
    requires DiskOk(g, disk) && 0 <= c < Entries(g) && IsData(g, d) && |b| == 4
    requires 0 <= FatSecOfClus(g, c) < |disk| && FatOffsetOfClus(c) + 4 <= |disk[FatSecOfClus(g, c)]|
    ensures ClusterBytes(g, PutSector(disk, FatSecOfClus(g, c), FatOffsetOfClus(c), b), d) == ClusterBytes(g, disk, d)
  {
    FatPlace(g, c);
    var disk' := PutSector(disk, FatSecOfClus(g, c), FatOffsetOfClus(c), b);
    forall k | 0 <= k < BytesPerClus(g) ensures ClusterByte(g, disk', d, k) == ClusterByte(g, disk, d, k) {
      SectorIndex(g, k);
      ClusterPlace(g, d, k / BSIZE);
    }
  }

  lemma SectorIndex(g: Geometry, k: int)
    requires 0 <= k < BytesPerClus(g)
    ensures 0 <= k / BSIZE < g.secPerClus && 0 <= k % BSIZE < BSIZE
  {
  }

  // ---------- writing data ----------

  /** Writing inside one sector of a data cluster. */
  lemma PutDataSector(g: Geometry, disk: seq<seq<Byte>>, c: int, i: int, o: int, data: seq<Byte>)
    requires DiskOk(g, disk) && IsData(g, c) && 0 <= i < g.secPerClus && 0 <= o && o + |data| <= BSIZE
    ensures 0 <= FirstSecOfClus(g, c) + i < |disk| && |disk[FirstSecOfClus(g, c) + i]| == BSIZE
    ensures i * BSIZE + o + |data| <= BytesPerClus(g)
    ensures var disk' := PutSector(disk, FirstSecOfClus(g, c) + i, o, data);
            && (forall d :: 0 <= d < Entries(g) ==> FatEntry(g, disk', d) == FatEntry(g, disk, d))
            && (forall d :: IsData(g, d) && d != c ==> ClusterBytes(g, disk', d) == ClusterBytes(g, disk, d))
            && ClusterBytes(g, disk', c) == Patch(ClusterBytes(g, disk, c), i * BSIZE + o, data)
  {
    ClusterPlace(g, c, i);
    var s := FirstSecOfClus(g, c) + i;
    var disk' := PutSector(disk, s, o, data);
    Scaled(i, g.secPerClus - 1, BSIZE);
    forall d | 0 <= d < Entries(g) ensures FatEntry(g, disk', d) == FatEntry(g, disk, d) {
      FatPlace(g, d);
    }
    forall d | IsData(g, d) && d != c ensures ClusterBytes(g, disk', d) == ClusterBytes(g, disk, d) {
      forall k | 0 <= k < BytesPerClus(g) ensures ClusterByte(g, disk', d, k) == ClusterByte(g, disk, d, k) {
        SectorIndex(g, k);
        if FirstSecOfClus(g, d) + k / BSIZE == s { ClustersApart(g, d, k / BSIZE, c, i); }
      }
    }
    PutOwnSector(g, disk, c, i, o, data);
  }

  lemma PutOwnSector(g: Geometry, disk: seq<seq<Byte>>, c: int, i: int, o: int, data: seq<Byte>)
    requires DiskOk(g, disk) && IsData(g, c) && 0 <= i < g.secPerClus && 0 <= o && o + |data| <= BSIZE
    requires 0 <= FirstSecOfClus(g, c) + i < |disk| && i * BSIZE + o + |data| <= BytesPerClus(g)
    ensures ClusterBytes(g, PutSector(disk, FirstSecOfClus(g, c) + i, o, data), c) ==
            Patch(ClusterBytes(g, disk, c), i * BSIZE + o, data)
  {
    var s := FirstSecOfClus(g, c) + i;
    var disk' := PutSector(disk, s, o, data);
    var b := ClusterBytes(g, disk, c);
    forall k | 0 <= k < BytesPerClus(g) ensures ClusterByte(g, disk', c, k) == Patch(b, i * BSIZE + o, data)[k] {
      PutSectorByte(disk, s, o, data, FirstSecOfClus(g, c) + k / BSIZE, k % BSIZE);
      assert k == k / BSIZE * BSIZE + k % BSIZE;
    }
  }

  // ---------- where the tables lie on the disk ----------

  ghost predicate HoldsByte(disk: seq<seq<Byte>>, s: int, o: int, b: Byte) {
    0 <= s < |disk| && 0 <= o < |disk[s]| && disk[s][o] == b
  }

  function Little(a: int, b: int, c: int, d: int): int { a + 0x100 * b + 0x1_0000 * c + 0x100_0000 * d }

  /** A 32-bit number, lowest byte first. */
  ghost predicate HoldsWord(disk: seq<seq<Byte>>, s: int, o: int, n: nat) {
    && 0 <= s < |disk| && 0 <= o && o + 4 <= |disk[s]|
    && n == Little(disk[s][o], disk[s][o + 1], disk[s][o + 2], disk[s][o + 3])
  }

  /** Byte k of a data cluster stands behind all copies of the FAT. */
  lemma ClusterOnDisk(g: Geometry, disk: seq<seq<Byte>>, c: int, k: int)
    requires DiskOk(g, disk) && IsData(g, c) && 0 <= k < BytesPerClus(g)
    ensures HoldsByte(disk, g.reserved + g.fatCount * g.fatSectors + (c - 2) * g.secPerClus + k / 512, k % 512,
                      DataAt(g, disk, c)[k])
  {
    SectorIndex(g, k);
    ClusterPlace(g, c, k / BSIZE);
  }

  /** The bytes at offset off of a cluster, on the disk. */
  ghost predicate RangeOnDisk(g: Geometry, disk: seq<seq<Byte>>, c: int, off: int, data: seq<Byte>) {
    forall k :: 0 <= k < |data| ==>
      HoldsByte(disk, g.reserved + g.fatCount * g.fatSectors + (c - 2) * g.secPerClus + (off + k) / 512,
                (off + k) % 512, data[k])
  }

  lemma RangeIs(g: Geometry, disk: seq<seq<Byte>>, bits: seq<bool>, c: int, off: int, data: seq<Byte>)
    requires DiskOk(g, disk) && IsData(g, c) && 0 <= off && off + |data| <= BytesPerClus(g)
    requires data == VolOf(g, disk, bits).data[c][off..off + |data|]
    ensures RangeOnDisk(g, disk, c, off, data)
  {
    hide HoldsByte, ClusterBytes, FatEntry;
    forall k | 0 <= k < |data|
      ensures HoldsByte(disk, g.reserved + g.fatCount * g.fatSectors + (c - 2) * g.secPerClus + (off + k) / 512,
                        (off + k) % 512, data[k])
    {
      ClusterOnDisk(g, disk, c, off + k);
    }
  }

  /** A FAT entry is read from the first copy. */
  lemma EntryOnDisk(g: Geometry, disk: seq<seq<Byte>>, c: int)
    requires DiskOk(g, disk) && 0 <= c < Entries(g)
    ensures HoldsWord(disk, g.reserved + c / 128, 4 * (c % 128), FatEntry(g, disk, c))
  {
    FatPlace(g, c);
    var s, o := g.reserved + c / 128, 4 * (c % 128);
    FourBytes([SectorByte(disk, s, o), SectorByte(disk, s, o + 1),
               SectorByte(disk, s, o + 2), SectorByte(disk, s, o + 3)]);
  }

  lemma FourBytes(b: seq<Byte>)
    requires |b| == 4
    ensures FromBytes(b) == Little(b[0], b[1], b[2], b[3])
  {
    assert FromBytes(b[1..]) == b[1] + 256 * FromBytes(b[1..][1..]);
    assert FromBytes(b[2..]) == b[2] + 256 * FromBytes(b[2..][1..]);
    assert FromBytes(b[3..]) == b[3] + 256 * FromBytes(b[3..][1..]);
    assert b[1..][1..] == b[2..] && b[2..][1..] == b[3..] && b[3..][1..] == [];
  }

  /** Nothing but the sectors of cluster c may have changed. */
  ghost predicate OnlyCluster(g: Geometry, disk: seq<seq<Byte>>, disk': seq<seq<Byte>>, c: int) {
    && |disk'| == |disk|
    && forall s :: 0 <= s < |disk| && disk'[s] != disk[s] ==>
         && g.reserved + g.fatCount * g.fatSectors + (c - 2) * g.secPerClus <= s
         && s < g.reserved + g.fatCount * g.fatSectors + (c - 1) * g.secPerClus
  }

  /** So no sector of any copy of the FAT, nor one before it, has. */
  lemma FatsKept(g: Geometry, disk: seq<seq<Byte>>, disk': seq<seq<Byte>>, c: int)
    requires IsData(g, c) && OnlyCluster(g, disk, disk', c)
    ensures forall s :: 0 <= s < |disk| && s < g.reserved + g.fatCount * g.fatSectors ==> disk'[s] == disk[s]
  {
    Scaled(0, c - 2, g.secPerClus);
  }

  lemma PutOnlyCluster(g: Geometry, disk0: seq<seq<Byte>>, disk: seq<seq<Byte>>, c: int, i: int, o: int,
                       data: seq<Byte>)
    requires DiskOk(g, disk) && IsData(g, c) && 0 <= i < g.secPerClus && 0 <= o && o + |data| <= BSIZE
    requires 0 <= FirstSecOfClus(g, c) + i < |disk| && OnlyCluster(g, disk0, disk, c)
    ensures OnlyCluster(g, disk0, PutSector(disk, FirstSecOfClus(g, c) + i, o, data), c)
  {
    assert (c - 1) * g.secPerClus == (c - 2) * g.secPerClus + g.secPerClus;
  }

  /** The write of one FAT entry, on the disk. */
  ghost predicate OnlyEntry(g: Geometry, disk: seq<seq<Byte>>, disk': seq<seq<Byte>>, c: int, n: nat) {
    && |disk'| == |disk| && HoldsWord(disk', g.reserved + c / 128, 4 * (c % 128), n)
    && forall s, o :: 0 <= s < |disk| && 0 <= o < |disk[s]| ==>
         && o < |disk'[s]|
         && ((s == g.reserved + c / 128 && 4 * (c % 128) <= o < 4 * (c % 128) + 4) || disk'[s][o] == disk[s][o])
  }

  // ---------- the operations ----------

  /** The bitmap loop of fatInit: bit i * 128 + j is set when entry j of FAT sector i is not zero. */
  method BuildBitmap(g: Geometry, disk: seq<seq<Byte>>) returns (bits: seq<bool>)
    requires DiskOk(g, disk)
    ensures |bits| == Entries(g) && forall c :: 0 <= c < Entries(g) ==> (bits[c] <==> FatEntry(g, disk, c) != 0)
  {
    hide FatEntry, Word32, DiskOk;
    bits := seq(Entries(g), c => false);
    for i := 0 to g.fatSectors
      invariant |bits| == Entries(g)
      invariant forall c :: 0 <= c < Entries(g) ==> (bits[c] <==> c < i * 128 && FatEntry(g, disk, c) != 0)
    {
      for j := 0 to 128
        invariant |bits| == Entries(g)
        invariant forall c :: 0 <= c < Entries(g) ==> (bits[c] <==> c < i * 128 + j && FatEntry(g, disk, c) != 0)
      {
        var no := i * 128 + j;
        EntryInSector(g, disk, i, j);
        if Word32(disk, g.reserved + i, 4 * j) != 0 {
          bits := bits[no := true];
        }
      }
    }
  }

  lemma EntryInSector(g: Geometry, disk: seq<seq<Byte>>, i: int, j: int)
    requires DiskOk(g, disk) && 0 <= i < g.fatSectors && 0 <= j < 128
    ensures 0 <= i * 128 + j < Entries(g) && Word32(disk, g.reserved + i, 4 * j) == FatEntry(g, disk, i * 128 + j)
  {
    FatPlace(g, i * 128 + j);
  }

  class Volume {
    const g: Geometry
    var disk: seq<seq<Byte>>
    var bits: seq<bool>

    ghost function V(): Vol
      reads this
    {
      VolOf(g, disk, bits)
    }

    ghost predicate Valid()
      reads this
    {
      DiskOk(g, disk) && VolInv(g, V())
    }

    constructor (geometry: Geometry, sectors: seq<seq<Byte>>)
      requires DiskOk(geometry, sectors)
      requires forall c :: 0 <= c < Entries(geometry) && c < 2 ==> FatEntry(geometry, sectors, c) != 0
      requires forall c :: 0 <= c < Entries(geometry) ==> FatEntry(geometry, sectors, c) < ENTRY_LIMIT
      ensures Valid() && g == geometry && disk == sectors
    {
      var b := BuildBitmap(geometry, sectors);
      g, disk, bits := geometry, sectors, b;
    }

    /** read_fat: chain-end marks read as themselves, clusters past the data area as 0. */
    method ReadFat(c: int) returns (n: nat)
      requires Valid() && 0 <= c
      ensures n == if c >= EOC then c else if c > g.dataClusters + 1 then 0 else V().fat[c]
      ensures c <= g.dataClusters + 1 ==> HoldsWord(disk, g.reserved + c / 128, 4 * (c % 128), n)
    {
      if c >= EOC {
        return c;
      }
      if c > g.dataClusters + 1 {
        return 0;
      }
      EntryOnDisk(g, disk, c);
      FatPlace(g, c);
      n := FatEntry(g, disk, c);
    }

    /** write_fat; clusters past the data area are refused. */
    method WriteFat(c: int, n: nat) returns (r: int)
      requires Valid() && 0 <= c && n < ENTRY_LIMIT
      modifies this`disk
      ensures DiskOk(g, disk) && r == if c > g.dataClusters + 1 then -1 else 0
      ensures r == -1 ==> disk == old(disk)
      ensures r == 0 ==> V() == old(V()).(fat := old(V()).fat[c := n]) && OnlyEntry(g, old(disk), disk, c, n)
    {
      if c > g.dataClusters + 1 {
        return -1;
      }
      PutFat(c, n);
      r := 0;
    }

    method PutFat(c: int, n: nat)
      requires DiskOk(g, disk) && |bits| == Entries(g) && 0 <= c < Entries(g) && n < ENTRY_LIMIT
      modifies this`disk
      ensures DiskOk(g, disk) && V() == old(V()).(fat := old(V()).fat[c := n])
      ensures OnlyEntry(g, old(disk), disk, c, n)
    {
      hide VolOf, FatEntry, Word32;
      ghost var fat := V().fat;
      FatIs(g, disk, bits, c);
      PutFatVol(g, disk, bits, c, n);
      FatPlace(g, c);
      disk := PutSector(disk, FatSecOfClus(g, c), FatOffsetOfClus(c), ToBytes(n, 4));
      EntryOnDisk(g, disk, c);
      FatIs(g, disk, bits, c);
      assert V().fat == fat[c := n];
    }

    /** rw_clus, reading: n bytes from offset off of cluster c. */
    method ReadClus(c: int, off: int, n: int) returns (data: seq<Byte>)
      requires Valid() && IsData(g, c) && 0 <= off && 0 <= n && off + n <= BytesPerClus(g)
      ensures data == V().data[c][off..off + n]
      ensures RangeOnDisk(g, disk, c, off, data)
    {
      hide VolOf, FatEntry, ClusterBytes, VolInv, FirstSecOfClus, FirstDataSec, RangeOnDisk;
      var sec := off / BSIZE;
      data := [];
      DataIs(g, disk, bits, c);
      ghost var b := V().data[c];
      while |data| < n
        invariant |data| <= n
        invariant |data| < n ==> sec == (off + |data|) / BSIZE
        invariant data == b[off..off + |data|]
      {
        NextSector(off + |data|, n - |data|);
        var o := (off + |data|) % BSIZE;
        var m := BSIZE - o;
        if n - |data| < m {
          m := n - |data|;
        }
        ReadPart(g, disk, c, off + |data|, m);
        assert b[off..off + |data|] + b[off + |data|..off + |data| + m] == b[off..off + |data| + m];
        data := data + disk[FirstSecOfClus(g, c) + sec][o..o + m];
        sec := sec + 1;
      }
      RangeIs(g, disk, bits, c, off, data);
    }

    /** rw_clus, writing: data at offset off of cluster c. */
    method WriteClus(c: int, off: int, data: seq<Byte>)
      requires Valid() && IsData(g, c) && 0 <= off && off + |data| <= BytesPerClus(g)
      modifies this`disk
      ensures DiskOk(g, disk) && V() == Written(old(V()), c, off, data)
      ensures OnlyCluster(g, old(disk), disk, c)
      ensures forall s :: 0 <= s < |disk| && s < g.reserved + g.fatCount * g.fatSectors ==> disk[s] == old(disk)[s]
      ensures RangeOnDisk(g, disk, c, off, data)
    {
      hide VolOf, VolInv, Written, FirstSecOfClus, OnlyCluster, RangeOnDisk;
      var sec := off / BSIZE;
      var tot := 0;
      ghost var v := V();
      WrittenNothing(g, v, c, off);
      assert OnlyCluster(g, disk, disk, c) by { SameDisk(g, disk, c); }
      while tot < |data|
        invariant 0 <= tot <= |data| && DiskOk(g, disk) && OnlyCluster(g, old(disk), disk, c)
        invariant tot < |data| ==> sec == (off + tot) / BSIZE
        invariant V() == Written(v, c, off, data[..tot])
      {
        NextSector(off + tot, |data| - tot);
        var o := (off + tot) % BSIZE;
        var m := BSIZE - o;
        if |data| - tot < m {
          m := |data| - tot;
        }
        SectorIndex(g, off + tot);
        PutDataVol(g, disk, bits, c, sec, o, data[tot..tot + m]);
        WrittenMore(g, v, c, off, data, tot, m);
        PutOnlyCluster(g, old(disk), disk, c, sec, o, data[tot..tot + m]);
        disk := PutSector(disk, FirstSecOfClus(g, c) + sec, o, data[tot..tot + m]);
        tot := tot + m;
        sec := sec + 1;
      }
      assert data[..tot] == data;
      FatsKept(g, old(disk), disk, c);
      WrittenRange(g, disk, bits, v, c, off, data);
    }

    /** zero_clus */
    method ZeroClus(c: int)
      requires DiskOk(g, disk) && |bits| == Entries(g) && IsData(g, c)
      modifies this`disk
      ensures DiskOk(g, disk) && V() == old(V()).(data := old(V()).data[c := seq<Byte>(BytesPerClus(g), k => 0)])
      ensures OnlyCluster(g, old(disk), disk, c)
    {
      hide OnlyCluster;
      ghost var v := V();
      SameDisk(g, disk, c);
      for i := 0 to g.secPerClus
        invariant DiskOk(g, disk) && OnlyCluster(g, old(disk), disk, c)
        invariant V() == v.(data := v.data[c := V().data[c]])
        invariant forall k :: 0 <= k < i * BSIZE ==> V().data[c][k] == 0
      {
        var z := seq<Byte>(BSIZE, k => 0);
        PutDataVol(g, disk, bits, c, i, 0, z);
        PutOnlyCluster(g, old(disk), disk, c, i, 0, z);
        disk := PutSector(disk, FirstSecOfClus(g, c) + i, 0, z);
      }
      assert V().data[c] == seq<Byte>(BytesPerClus(g), k => 0);
    }

    /** The search of alloc_clus: the lowest free cluster, or -1 if there is none in the data area. */
    method FindFree() returns (c: int)
      requires Valid()
      ensures c == -1 <==> forall d :: IsData(g, d) && 0 <= d < Entries(g) ==> V().fat[d] != 0
      ensures c != -1 ==> IsData(g, c) && V().fat[c] == 0 && forall d :: 0 <= d < c ==> V().fat[d] != 0
    {
      hide VolOf, DiskOk;
      UsedBits();
      c := FirstClear(bits, 2 * g.fatSectors);
      assert c != -1 ==> forall d :: 0 <= d < c ==> bits[..c][d];
      if c != -1 && !IsData(g, c) {
        c := -1;
      }
    }

    lemma UsedBits()
      ensures V().used == bits
    {
    }

    /** alloc_clus: the lowest free cluster, marked as a chain end and filled with zeros.  A full volume is a panic, or,
        where the FAT has entries past the data area, a cluster that is not there; the model stops in both cases. */
    method AllocClus() returns (ok: bool, c: int)
      requires Valid()
      modifies this
      ensures ok <==> exists d :: IsData(g, d) && 0 <= d < Entries(g) && old(V()).fat[d] == 0
      ensures !ok ==> V() == old(V()) && Valid()
      ensures ok ==> Valid() && IsData(g, c) && old(V()).fat[c] == 0 && V() == Allocated(old(V()), g, c)
      ensures ok ==> forall d :: 0 <= d < c ==> old(V()).fat[d] != 0
    {
      c := FindFree();
      if c == -1 {
        return false, 0;
      }
      ghost var v := V();
      bits := bits[c := true];
      PutFat(c, EOC + 7);
      ZeroClus(c);
      ok := true;
      AllocatedInv(g, v, c);
    }

    /** free_clus */
    method FreeClus(c: int)
      requires Valid() && IsData(g, c)
      modifies this
      ensures Valid() && V() == Freed(old(V()), c)
    {
      FreedInv(g, V(), c);
      var r := WriteFat(c, 0);
      bits := bits[c := false];
    }
  }

  /** The volume after data is written at offset off of cluster c. */
  function Written(v: Vol, c: int, off: int, data: seq<Byte>): Vol
  {
    if 0 <= c < |v.data| && 0 <= off && off + |data| <= |v.data[c]| then
      Vol(v.fat, v.data[c := Patch(v.data[c], off, data)], v.used)
    else v
  }

  lemma WrittenNothing(g: Geometry, v: Vol, c: int, off: int)
    requires VolInv(g, v) && IsData(g, c) && 0 <= off <= BytesPerClus(g)
    ensures Written(v, c, off, []) == v
  {
    PatchNothing(v.data[c], off);
  }

  lemma WrittenMore(g: Geometry, v: Vol, c: int, off: int, data: seq<Byte>, tot: int, m: int)
    requires VolInv(g, v) && IsData(g, c) && 0 <= off && off + |data| <= BytesPerClus(g)
    requires 0 <= tot && 0 <= m && tot + m <= |data|
    ensures Written(Written(v, c, off, data[..tot]), c, off + tot, data[tot..tot + m]) ==
            Written(v, c, off, data[..tot + m])
  {
    PatchMore(v.data[c], off, data, tot, m);
  }

  lemma WrittenInv(g: Geometry, v: Vol, c: int, off: int, data: seq<Byte>)
    requires VolInv(g, v) && IsData(g, c)
    ensures VolInv(g, Written(v, c, off, data))
  {
  }

  function Allocated(v: Vol, g: Geometry, c: int): Vol
    requires 0 <= c < |v.fat| && c < |v.data| && c < |v.used|
  {
    Vol(v.fat[c := EOC + 7], v.data[c := seq<Byte>(BytesPerClus(g), k => 0)], v.used[c := true])
  }

  lemma SameDisk(g: Geometry, disk: seq<seq<Byte>>, c: int)
    ensures OnlyCluster(g, disk, disk, c)
  {
  }

  lemma DataIs(g: Geometry, disk: seq<seq<Byte>>, bits: seq<bool>, c: int)
    requires IsData(g, c)
    ensures var v := VolOf(g, disk, bits); |v.data| == g.dataClusters + 2 && v.data[c] == ClusterBytes(g, disk, c)
  {
    hide FatEntry, ClusterBytes;
  }

  lemma FatIs(g: Geometry, disk: seq<seq<Byte>>, bits: seq<bool>, c: int)
    requires 0 <= c < Entries(g)
    ensures |VolOf(g, disk, bits).fat| == Entries(g) && VolOf(g, disk, bits).fat[c] == FatEntry(g, disk, c)
  {
  }

  lemma WrittenRange(g: Geometry, disk: seq<seq<Byte>>, bits: seq<bool>, v: Vol, c: int, off: int, data: seq<Byte>)
    requires DiskOk(g, disk) && VolInv(g, v) && IsData(g, c) && 0 <= off
    requires off + |data| <= BytesPerClus(g) && VolOf(g, disk, bits) == Written(v, c, off, data)
    ensures RangeOnDisk(g, disk, c, off, data)
  {
    hide ClusterBytes, FatEntry, RangeOnDisk;
    assert data == Written(v, c, off, data).data[c][off..off + |data|];
    RangeIs(g, disk, bits, c, off, data);
  }

  lemma AllocatedInv(g: Geometry, v: Vol, c: int)
    requires VolInv(g, v) && IsData(g, c)
    ensures VolInv(g, Allocated(v, g, c))
  {
  }

  function Freed(v: Vol, c: int): Vol
    requires 0 <= c < |v.fat| && c < |v.used|
  {
    Vol(v.fat[c := 0], v.data, v.used[c := false])
  }

  lemma FreedInv(g: Geometry, v: Vol, c: int)
    requires VolInv(g, v) && IsData(g, c)
    ensures VolInv(g, Freed(v, c))
  {
  }

  // ---------- the operations on the tables ----------

  lemma PutFatVol(g: Geometry, disk: seq<seq<Byte>>, bits: seq<bool>, c: int, n: nat)
    requires DiskOk(g, disk) && 0 <= c < Entries(g) && n < ENTRY_LIMIT
    ensures 0 <= FatSecOfClus(g, c) < |disk| && FatOffsetOfClus(c) + 4 <= |disk[FatSecOfClus(g, c)]|
    ensures var disk' := PutSector(disk, FatSecOfClus(g, c), FatOffsetOfClus(c), ToBytes(n, 4));
            VolOf(g, disk', bits) == VolOf(g, disk, bits).(fat := VolOf(g, disk, bits).fat[c := n])
  {
    hide ClusterBytes, FatEntry, PutSector, ToBytes;
    PutEntryRead(g, disk, c, n, c);
    var disk' := PutSector(disk, FatSecOfClus(g, c), FatOffsetOfClus(c), ToBytes(n, 4));
    forall d | 0 <= d < Entries(g) ensures FatEntry(g, disk', d) == if d == c then n else FatEntry(g, disk, d) {
      PutEntryRead(g, disk, c, n, d);
    }
    forall d | IsData(g, d) ensures ClusterBytes(g, disk', d) == ClusterBytes(g, disk, d) {
      PutEntryData(g, disk, c, ToBytes(n, 4), d);
    }
    assert VolOf(g, disk', bits).fat == VolOf(g, disk, bits).fat[c := n];
    assert VolOf(g, disk', bits).data == VolOf(g, disk, bits).data;
  }

  lemma PutDataVol(g: Geometry, disk: seq<seq<Byte>>, bits: seq<bool>, c: int, i: int, o: int, data: seq<Byte>)
    requires DiskOk(g, disk) && IsData(g, c) && 0 <= i < g.secPerClus && 0 <= o && o + |data| <= BSIZE
    ensures 0 <= FirstSecOfClus(g, c) + i < |disk| && |disk[FirstSecOfClus(g, c) + i]| == BSIZE
    ensures i * BSIZE + o + |data| <= BytesPerClus(g)
    ensures var disk', v := PutSector(disk, FirstSecOfClus(g, c) + i, o, data), VolOf(g, disk, bits);
            VolOf(g, disk', bits) == Written(v, c, i * BSIZE + o, data)
  {
    hide ClusterBytes, FatEntry, PutSector;
    PutDataSector(g, disk, c, i, o, data);
    var disk', v := PutSector(disk, FirstSecOfClus(g, c) + i, o, data), VolOf(g, disk, bits);
    assert VolOf(g, disk', bits).fat == v.fat;
    assert v.data[c] == ClusterBytes(g, disk, c);
    assert VolOf(g, disk', bits).data == v.data[c := Patch(v.data[c], i * BSIZE + o, data)];
  }

  lemma ReadSector(g: Geometry, disk: seq<seq<Byte>>, c: int, i: int, o: int, m: int)
    requires DiskOk(g, disk) && IsData(g, c) && 0 <= i < g.secPerClus && 0 <= o && 0 <= m && o + m <= BSIZE
    requires 0 <= FirstSecOfClus(g, c) + i < |disk|
    ensures i * BSIZE + o + m <= BytesPerClus(g)
    ensures disk[FirstSecOfClus(g, c) + i][o..o + m] == ClusterBytes(g, disk, c)[i * BSIZE + o..i * BSIZE + o + m]
  {
    Scaled(i, g.secPerClus - 1, BSIZE);
    var base := i * BSIZE + o;
    var x, y := disk[FirstSecOfClus(g, c) + i][o..o + m], ClusterBytes(g, disk, c)[base..base + m];
    forall k | 0 <= k < m ensures x[k] == y[k] {
      assert y[k] == ClusterByte(g, disk, c, base + k);
      InSector(i, o + k);
    }
  }

  /** A part of a cluster that lies in one sector. */
  lemma ReadPart(g: Geometry, disk: seq<seq<Byte>>, c: int, at: int, m: int)
    requires DiskOk(g, disk) && IsData(g, c) && 0 <= at && 0 < m && at % BSIZE + m <= BSIZE
    requires at + m <= BytesPerClus(g)
    ensures var s, o := FirstSecOfClus(g, c) + at / BSIZE, at % BSIZE;
            && 0 <= s < |disk| && |disk[s]| == BSIZE
            && disk[s][o..o + m] == ClusterBytes(g, disk, c)[at..at + m]
  {
    hide FirstSecOfClus, ClusterBytes;
    SectorIndex(g, at);
    ClusterPlace(g, c, at / BSIZE);
    ReadSector(g, disk, c, at / BSIZE, at % BSIZE, m);
  }

  lemma InSector(i: int, o: int)
    requires 0 <= i && 0 <= o < BSIZE
    ensures (i * BSIZE + o) / BSIZE == i && (i * BSIZE + o) % BSIZE == o
  {
  }

  /** Stepping from sector to sector through a byte range. */
  lemma NextSector(p: int, rest: int)
    requires 0 <= p && 0 < rest
    ensures var o := p % BSIZE;
            var m := if rest < BSIZE - o then rest else BSIZE - o;
            && p == p / BSIZE * BSIZE + o && 0 < m <= rest && o + m <= BSIZE
            && (m < rest ==> (p + m) / BSIZE == p / BSIZE + 1)
  {
  }

  lemma PatchNothing(b: seq<Byte>, off: int)
    requires 0 <= off <= |b|
    ensures Patch(b, off, []) == b
  {
  }

  lemma PatchMore(b: seq<Byte>, off: int, data: seq<Byte>, tot: int, m: int)
    requires 0 <= off && off + |data| <= |b| && 0 <= tot && 0 <= m && tot + m <= |data|
    ensures Patch(Patch(b, off, data[..tot]), off + tot, data[tot..tot + m]) == Patch(b, off, data[..tot + m])
  {
  }
}
