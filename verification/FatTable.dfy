/** Geometry of a FAT32 volume and the file allocation table as it lies on the disk:
    28-bit entries, four bytes each, 128 to a sector. */
module FatTable {
  import opened Bytes
  import opened Strides

  const MASK: nat := 0x1000_0000

  /** `clusters` data clusters are numbered 2 .. clusters + 1.  The driver never computes that
      number; it is a property of the medium. */
  datatype Geometry = Geometry(spc: nat, reserved: nat, fatSize: nat, rootCluster: nat,
                               dataStart: nat, clusters: nat)

  ghost predicate ValidGeometry(g: Geometry) {
    && 1 <= g.spc <= 255
    && 1 <= g.reserved
    && g.reserved + g.fatSize <= g.dataStart
    && g.clusters + 2 <= g.fatSize * 128
    && g.clusters + 2 <= 0x0FFF_FFF0
    && g.dataStart + Stride(g.spc, g.clusters) < U32
  }

  /** The medium `d` is large enough for the volume. */
  ghost predicate Fits(g: Geometry, d: Disk) {
    ValidGeometry(g) && g.dataStart + Stride(g.spc, g.clusters) <= |d|
  }

  /** A number of a data cluster of this volume. */
  predicate InVolume(g: Geometry, c: nat) {
    2 <= c < g.clusters + 2
  }

  /** First sector of cluster c. */
  function Lba(g: Geometry, c: nat): nat
    requires 2 <= c
  {
    g.dataStart + Stride(g.spc, c - 2)
  }

  /** The driver's 32-bit address arithmetic never wraps for a cluster of the volume. */
  lemma LbaInRange(g: Geometry, c: nat)
    requires ValidGeometry(g) && InVolume(g, c)
    ensures g.dataStart <= Lba(g, c)
    ensures Lba(g, c) + g.spc <= g.dataStart + Stride(g.spc, g.clusters) < U32
  {
    StrideMonotone(g.spc, c - 2, g.clusters);
  }

  /** The driver multiplies, and keeps 32 bits of the sum, which are all. */
  lemma LbaByProduct(g: Geometry, c: nat)
    requires ValidGeometry(g) && InVolume(g, c)
    ensures Lba(g, c) == g.dataStart + (c - 2) * g.spc < U32
  {
    LbaInRange(g, c);
    StrideIsProduct(g.spc, c - 2);
  }

  /** Distinct clusters never share a sector, and no cluster reaches into the FAT. */
  lemma ClustersDisjoint(g: Geometry, c: nat, e: nat, i: nat, j: nat)
    requires ValidGeometry(g) && InVolume(g, c) && InVolume(g, e)
    requires i < g.spc && j < g.spc
    ensures Lba(g, c) + i == Lba(g, e) + j <==> c == e && i == j
  {
    StrideInjective(g.spc, c - 2, i, e - 2, j);
  }

  /** Sector and offset of the FAT entry of cluster c. */
  function FatLba(g: Geometry, c: nat): nat { g.reserved + c / 128 }
  function FatOff(c: nat): nat { c % 128 * 4 }

  /** An entry lies inside the first FAT, never straddles a sector, and never meets another's. */
  lemma FatEntryPlace(g: Geometry, c: nat)
    requires ValidGeometry(g) && c < g.clusters + 2
    ensures FatLba(g, c) < g.reserved + g.fatSize <= g.dataStart
    ensures FatOff(c) + 4 <= 512
  {
  }

  /** Entries of different clusters do not overlap. */
  lemma FatEntriesApart(g: Geometry, c: nat, e: nat)
    requires c != e
    ensures FatLba(g, c) != FatLba(g, e) || FatOff(c) + 4 <= FatOff(e) || FatOff(e) + 4 <= FatOff(c)
  {
  }

  /** The driver computes both from the byte offset 4 * c. */
  lemma FatPlaceFromByteOffset(c: nat)
    ensures c * 4 / 512 == c / 128 && c * 4 % 512 == c % 128 * 4
  {
    assert c == 128 * (c / 128) + c % 128;
  }

  lemma EntryInPatched(s: Sector, o: nat, v: nat, p: nat)
    requires o + 4 <= 512 && p + 4 <= 512 && v < U32
    requires p == o || p + 4 <= o || o + 4 <= p
    ensures Le32(Patched(s, o, Bytes32(v)), p) == if p == o then v else Le32(s, p)
  {
    if p == o {
      BytesRoundTrip(v);
    }
  }

  /** The masked entry of cluster c in the first FAT. */
  function FatGet(g: Geometry, d: Disk, c: nat): (v: nat)
    requires Fits(g, d) && c < g.clusters + 2
    ensures v < MASK
  {
    FatEntryPlace(g, c);
    Le32(d[FatLba(g, c)], FatOff(c)) % 0x1000_0000
  }

  /** The disk after the entry of cluster c was overwritten with all 32 bits of v. */
  function FatSet(g: Geometry, d: Disk, c: nat, v: nat): (r: Disk)
    requires Fits(g, d) && c < g.clusters + 2
    ensures Fits(g, r) && |r| == |d|
  {
    FatEntryPlace(g, c);
    d[FatLba(g, c) := Patched(d[FatLba(g, c)], FatOff(c), Bytes32(v))]
  }

  /** The FAT is an array: a write is seen at its own index, masked, and nowhere else. */
  lemma FatGetSet(g: Geometry, d: Disk, c: nat, v: nat, e: nat)
    requires Fits(g, d) && c < g.clusters + 2 && e < g.clusters + 2
    requires v < U32
    ensures FatGet(g, FatSet(g, d, c, v), e) == if e == c then v % 0x1000_0000 else FatGet(g, d, e)
  {
    FatEntryPlace(g, c);
    FatEntryPlace(g, e);
    if FatLba(g, e) == FatLba(g, c) {
      if e != c {
        FatEntriesApart(g, c, e);
      }
      EntryInPatched(d[FatLba(g, c)], FatOff(c), v, FatOff(e));
    }
  }

  /** Byte for byte, only the four-byte window of the entry changes, and no data sector. */
  lemma FatSetFrame(g: Geometry, d: Disk, c: nat, v: nat, lba: nat, i: nat)
    requires Fits(g, d) && c < g.clusters + 2
    requires lba < |d| && i < 512
    requires lba != FatLba(g, c) || i < FatOff(c) || FatOff(c) + 4 <= i
    ensures FatSet(g, d, c, v)[lba][i] == d[lba][i]
  {
    FatEntryPlace(g, c);
  }

  /** All entries of the first FAT that describe clusters, plus the two reserved ones. */
  function FatView(g: Geometry, d: Disk): (fat: seq<nat>)
    requires Fits(g, d)
    ensures |fat| == g.clusters + 2
    ensures forall c :: 0 <= c < |fat| ==> fat[c] == FatGet(g, d, c) && fat[c] < MASK
  {
    seq(g.clusters + 2, c requires 0 <= c < g.clusters + 2 => FatGet(g, d, c))
  }

  /** `count` consecutive sectors as one run of bytes, as a multi-sector read delivers them. */
  function Span(d: Disk, lba: nat, count: nat): (bs: seq<byte>)
    requires lba + count <= |d|
    ensures |bs| == count * 512
    ensures forall i :: 0 <= i < count * 512 ==> bs[i] == d[lba + i / 512][i % 512]
  {
    seq(count * 512, i requires 0 <= i < count * 512 => d[lba + i / 512][i % 512])
  }

  // ----- where the entries lie -----

  /** The table is the first FAT read as one run of bytes: entry c is the four bytes from 4 * c on,
      lowest first, without its top four bits. */
  lemma FatGetBytes(g: Geometry, d: Disk, c: nat)
    requires Fits(g, d) && c < g.clusters + 2
    ensures 4 * c + 4 <= g.fatSize * 512 && g.reserved + g.fatSize <= |d|
    ensures var fat := Span(d, g.reserved, g.fatSize);
      FatGet(g, d, c) == (fat[4 * c] as int + 0x100 * fat[4 * c + 1] as int + 0x1_0000 * fat[4 * c + 2] as int
                          + 0x100_0000 * fat[4 * c + 3] as int) % 0x1000_0000
  {
    FatEntryPlace(g, c);
    FatByteIndex(c, 0);
    FatByteIndex(c, 1);
    FatByteIndex(c, 2);
    FatByteIndex(c, 3);
  }

  lemma FatByteIndex(c: nat, k: nat)
    requires k < 4
    ensures (4 * c + k) / 512 == c / 128 && (4 * c + k) % 512 == c % 128 * 4 + k
  {
    assert c == 128 * (c / 128) + c % 128;
  }

  /** Writing v into entry c replaces exactly these four bytes by those of v, lowest first. */
  lemma FatSetBytes(g: Geometry, d: Disk, c: nat, v: nat)
    requires Fits(g, d) && c < g.clusters + 2
    ensures 4 * c + 4 <= g.fatSize * 512 && g.reserved + g.fatSize <= |d|
    ensures Span(FatSet(g, d, c, v), g.reserved, g.fatSize) ==
      Span(d, g.reserved, g.fatSize)[4 * c := v % 0x100][4 * c + 1 := v / 0x100 % 0x100]
        [4 * c + 2 := v / 0x1_0000 % 0x100][4 * c + 3 := v / 0x100_0000 % 0x100]
  {
    FatEntryPlace(g, c);
    var a, b := Span(d, g.reserved, g.fatSize), Span(FatSet(g, d, c, v), g.reserved, g.fatSize);
    forall i | 0 <= i < g.fatSize * 512
      ensures b[i] == if 4 * c <= i < 4 * c + 4 then Bytes32(v)[i - 4 * c] else a[i]
    {
      FatByteAt(c, i);
    }
  }

  lemma FatByteAt(c: nat, i: nat)
    ensures 4 * c <= i < 4 * c + 4 <==> i / 512 == c / 128 && c % 128 * 4 <= i % 512 < c % 128 * 4 + 4
    ensures 4 * c <= i < 4 * c + 4 ==> i % 512 - c % 128 * 4 == i - 4 * c
  {
    assert c == 128 * (c / 128) + c % 128 && i == 512 * (i / 512) + i % 512;
  }

  lemma FatViewSet(g: Geometry, d: Disk, c: nat, v: nat)
    requires Fits(g, d) && c < g.clusters + 2
    requires v < MASK
    ensures FatView(g, FatSet(g, d, c, v)) == FatView(g, d)[c := v]
  {
    assert v % 0x1000_0000 == v;
    forall e: nat | e < g.clusters + 2
      ensures FatGet(g, FatSet(g, d, c, v), e) == if e == c then v else FatGet(g, d, e)
    {
      FatGetSet(g, d, c, v, e);
      assert e != c ==> FatGet(g, FatSet(g, d, c, v), e) == FatGet(g, d, e);
      assert e == c ==> FatGet(g, FatSet(g, d, c, v), e) == v % 0x1000_0000;
    }
    FatViewFrom(g, d, FatSet(g, d, c, v), c, v);
  }

  lemma FatViewFrom(g: Geometry, d: Disk, d': Disk, c: nat, v: nat)
    requires Fits(g, d) && Fits(g, d') && c < g.clusters + 2
    requires forall e: nat | e < g.clusters + 2 :: FatGet(g, d', e) == if e == c then v else FatGet(g, d, e)
    ensures FatView(g, d') == FatView(g, d)[c := v]
  {
    forall e | 0 <= e < g.clusters + 2 ensures FatView(g, d')[e] == FatView(g, d)[c := v][e] {
      assert FatView(g, d')[e] == FatGet(g, d', e);
    }
  }

  /** The FAT lies wholly in front of the data: it depends on no sector from dataStart on. */
  lemma FatViewFrame(g: Geometry, d: Disk, d': Disk)
    requires Fits(g, d) && Fits(g, d')
    requires d[..g.dataStart] == d'[..g.dataStart]
    ensures FatView(g, d) == FatView(g, d')
  {
    forall c | 0 <= c < g.clusters + 2 ensures FatGet(g, d, c) == FatGet(g, d', c) {
      FatEntryPlace(g, c);
      assert d[FatLba(g, c)] == d[..g.dataStart][FatLba(g, c)];
    }
  }

  function ClusterBytes(g: Geometry, d: Disk, c: nat): (bs: seq<byte>)
    requires Fits(g, d) && InVolume(g, c)
    ensures |bs| == g.spc * 512
  {
    LbaInRange(g, c);
    Span(d, Lba(g, c), g.spc)
  }

  /** Byte by byte; the first sector of the cluster is that of LbaByProduct. */
  lemma ClusterBytesAt(g: Geometry, d: Disk, c: nat, i: nat)
    requires Fits(g, d) && InVolume(g, c) && i < g.spc * 512
    ensures Lba(g, c) + i / 512 < |d| && ClusterBytes(g, d, c)[i] == d[Lba(g, c) + i / 512][i % 512]
  {
    LbaInRange(g, c);
  }

  /** Writing the FAT leaves every cluster's contents alone. */
  lemma FatSetKeepsData(g: Geometry, d: Disk, c: nat, v: nat)
    requires Fits(g, d) && c < g.clusters + 2
    ensures FatSet(g, d, c, v)[g.dataStart..] == d[g.dataStart..]
  {
    FatEntryPlace(g, c);
  }

  /** A cluster's contents depend only on the data area. */
  lemma ClusterBytesFrame(g: Geometry, d: Disk, d': Disk, c: nat)
    requires Fits(g, d) && Fits(g, d') && InVolume(g, c)
    requires g.dataStart <= |d| && g.dataStart <= |d'|
    requires d'[g.dataStart..] == d[g.dataStart..]
    ensures ClusterBytes(g, d', c) == ClusterBytes(g, d, c)
  {
    LbaInRange(g, c);
    forall i | 0 <= i < g.spc * 512 ensures ClusterBytes(g, d', c)[i] == ClusterBytes(g, d, c)[i] {
      var k := Lba(g, c) + i / 512;
      assert d[k] == d[g.dataStart..][k - g.dataStart];
      assert d'[k] == d'[g.dataStart..][k - g.dataStart];
    }
  }
}
