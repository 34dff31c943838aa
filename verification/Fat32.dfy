/** The FAT32 driver (src/fs/fat32.c): an object with the geometry read from the boot sector and the
    block device behind it.  Every operation is proved against the functions of DiskOps and
    FileContents, so that their lemmas speak about it. */
module Fat32Driver {
  import opened Bytes
  import opened CStrings
  import opened Strides
  import opened FatTable
  import opened Chains
  import opened Directory
  import opened Names
  import opened Volumes
  import opened DiskImage
  import opened DiskOps
  import opened DirectoryWalks
  import opened FileContents
  import opened Mounting
  import opened DriverSteps

  class Fat32 {
    var bytesPerSector: nat
    var sectorsPerCluster: nat
    var reservedSectors: nat
    var fatSize: nat
    var rootCluster: nat
    var dataStart: nat
    /** Whether a write callback was given. */
    const writable: bool
    /** The block device. */
    var sectors: Disk

    /** Number of data clusters of the medium, and the clusters of the root directory on it as a walk
        along its chain visits them. */
    ghost var clusters: nat
    ghost var rootChain: seq<nat>
    /** Clusters that are allocated without belonging to the root directory or to a live entry. */
    ghost var foreign: set<nat>
    /** The contents of the device after every write so far. */
    ghost var history: seq<Disk>

    ghost function G(): Geometry
      reads this
    {
      Geometry(sectorsPerCluster, reservedSectors, fatSize, rootCluster, dataStart, clusters)
    }

    /** The device holds a volume, and `rootChain` follows the links of its root directory. */
    ghost predicate Ready()
      reads this
    {
      bytesPerSector == 512 && Walk(G(), sectors, rootChain)
    }

    /** The first live entry under the stored form of `name`. */
    ghost function Search(name: CString): (r: Scan)
      reads this
      requires Ready()
      ensures r.Hit? ==> r.at < RootLen(G(), |rootChain|)
    {
      FindFrom(RootSlots(G(), sectors, rootChain), ShortName(name), 0)
    }

    /** A walk along the root directory with that goal ends, if it begins at all. */
    ghost predicate CanWalk(goal: Goal)
      reads this
    {
      sectorsPerCluster > 32 || Completes(G(), sectors, rootChain, goal)
    }

    /** These are the slots of the root directory, as far as the walk goes. */
    ghost predicate Root(slots: seq<Slot>)
      reads this
    {
      Fits(G(), sectors) && AllInVolume(G(), rootChain) && slots == RootSlots(G(), sectors, rootChain)
    }

    /** The volume is well-formed. */
    ghost predicate Valid()
      reads this
    {
      Ready() && GoodDisk(G(), sectors, rootChain, foreign)
    }

    constructor (device: Disk, canWrite: bool)
      ensures sectors == device && writable == canWrite && history == []
    {
      sectors, writable, history := device, canWrite, [];
    }

    // ----- the device -----

    method ReadSectors(lba: nat, buf: array<byte>, at: nat, count: nat)
      requires lba + count <= |sectors| && at + count * 512 <= buf.Length
      modifies buf
      ensures buf[at..at + count * 512] == Span(sectors, lba, count)
      ensures buf[..at] == old(buf[..at])
      ensures buf[at + count * 512..] == old(buf[at + count * 512..])
    {
      var i := 0;
      while i < count * 512
        invariant i <= count * 512
        invariant forall k :: at <= k < at + i ==> buf[k] == sectors[lba + (k - at) / 512][(k - at) % 512]
        invariant buf[..at] == old(buf[..at])
        invariant buf[at + count * 512..] == old(buf[at + count * 512..])
      {
        buf[at + i] := sectors[lba + i / 512][i % 512];
        i := i + 1;
      }
    }

    method ReadSector(lba: nat) returns (buf: array<byte>)
      requires lba < |sectors|
      ensures fresh(buf) && buf.Length == 512 && buf[..] == sectors[lba]
    {
      buf := new byte[512];
      ReadSectors(lba, buf, 0, 1);
      assert buf[..] == buf[0..512];
    }

    method WriteSector(lba: nat, buf: array<byte>)
      requires lba < |sectors| && buf.Length == 512
      modifies `sectors, `history
      ensures sectors == old(sectors)[lba := buf[..]]
      ensures history == old(history) + [sectors]
    {
      sectors := sectors[lba := buf[..]];
      history := history + [sectors];
    }

    // ----- mounting -----

    /** Reads the boot sector; `readable` says whether the device delivers it.  The driver does not
        learn what else makes up a volume: `n`, `chain` and `unowned` are what the medium holds. */
    method Init(readable: bool, ghost n: nat, ghost chain: seq<nat>, ghost unowned: set<nat>) returns (rc: int)
      requires sectors != []
      modifies `bytesPerSector, `sectorsPerCluster, `reservedSectors, `fatSize, `rootCluster, `dataStart,
        `clusters, `rootChain, `foreign
      ensures var b := sectors[0];
        rc == if !readable then -1 else if b[510] != 0x55 || b[511] != 0xAA then -2 else 0
      ensures rc != 0 ==> unchanged(this)
      ensures var b := sectors[0];
        rc == 0 ==>
          && bytesPerSector == b[11] as int + 0x100 * b[12] as int && sectorsPerCluster == b[13]
          && reservedSectors == b[14] as int + 0x100 * b[15] as int
          && fatSize == b[36] as int + 0x100 * b[37] as int + 0x1_0000 * b[38] as int + 0x100_0000 * b[39] as int
          && rootCluster == b[44] as int + 0x100 * b[45] as int + 0x1_0000 * b[46] as int + 0x100_0000 * b[47] as int
          && dataStart == (reservedSectors + b[16] * fatSize) % 0x1_0000_0000
      ensures rc == 0 ==> G() == BootGeometry(sectors[0], n) && rootChain == chain && foreign == unowned
      ensures rc == 0 && HoldsVolume(sectors, n, chain, unowned) ==> Valid()
    {
      if !readable {
        return -1;
      }
      var bpb := ReadSector(0);
      if bpb[510] != 0x55 || bpb[511] != 0xAA {
        return -2;
      }
      TakeFields(sectors[0], bpb, n);
      rootChain, foreign := chain, unowned;
      rc := 0;
    }

    method TakeFields(ghost b: Sector, bpb: array<byte>, ghost n: nat)
      requires bpb[..] == b
      modifies `bytesPerSector, `sectorsPerCluster, `reservedSectors, `fatSize, `rootCluster, `dataStart, `clusters
      ensures G() == BootGeometry(b, n)
      ensures bytesPerSector == b[11] as int + 0x100 * b[12] as int && sectorsPerCluster == b[13]
      ensures reservedSectors == b[14] as int + 0x100 * b[15] as int
      ensures fatSize == b[36] as int + 0x100 * b[37] as int + 0x1_0000 * b[38] as int + 0x100_0000 * b[39] as int
      ensures rootCluster == b[44] as int + 0x100 * b[45] as int + 0x1_0000 * b[46] as int + 0x100_0000 * b[47] as int
      ensures dataStart == (reservedSectors + b[16] * fatSize) % 0x1_0000_0000
    {
      bytesPerSector := Le16(bpb[..], 11);
      sectorsPerCluster := bpb[13];
      reservedSectors := Le16(bpb[..], 14);
      var numFats := bpb[16];
      fatSize := Le32(bpb[..], 36);
      rootCluster := Le32(bpb[..], 44);
      StrideIsProduct(fatSize, numFats);
      dataStart := (reservedSectors + numFats * fatSize) % 0x1_0000_0000;
      clusters := n;
    }

    // ----- clusters and table entries -----

    /** Computed in 32 bits; for a cluster of the volume nothing wraps. */
    method ClusterToLba(cluster: nat) returns (lba: nat)
      requires ValidGeometry(G()) && InVolume(G(), cluster)
      ensures lba == Lba(G(), cluster) && lba == dataStart + (cluster - 2) * sectorsPerCluster
    {
      LbaByProduct(G(), cluster);
      var offset := (cluster - 2) * sectorsPerCluster;
      lba := (dataStart + offset) % 0x1_0000_0000;
    }

    method ReadFatEntry(cluster: nat) returns (entry: nat)
      requires Fits(G(), sectors) && cluster < clusters + 2
      ensures entry == FatGet(G(), sectors, cluster)
      ensures reservedSectors + fatSize <= |sectors| && 4 * cluster + 4 <= fatSize * 512
      ensures var fat := Span(sectors, reservedSectors, fatSize);
        entry == (fat[4 * cluster] as int + 0x100 * fat[4 * cluster + 1] as int + 0x1_0000 * fat[4 * cluster + 2] as int
                  + 0x100_0000 * fat[4 * cluster + 3] as int) % 0x1000_0000
    {
      FatGetBytes(G(), sectors, cluster);
      FatEntryPlace(G(), cluster);
      FatPlaceFromByteOffset(cluster);
      var fatOffset := cluster * 4;
      var fatLba := reservedSectors + fatOffset / 512;
      var fatOff := fatOffset % 512;
      var sec := ReadSector(fatLba);
      assert fatOff + 4 <= 512;
      entry := Le32(sec[..], fatOff) % 0x1000_0000;
    }

    method WriteFatEntry(cluster: nat, value: nat)
      requires Fits(G(), sectors) && cluster < clusters + 2 && value < U32
      modifies `sectors, `history
      ensures sectors == FatSet(G(), old(sectors), cluster, value)
      ensures reservedSectors + fatSize <= |sectors| && 4 * cluster + 4 <= fatSize * 512
      ensures Span(sectors, reservedSectors, fatSize) ==
        Span(old(sectors), reservedSectors, fatSize)[4 * cluster := value % 0x100]
          [4 * cluster + 1 := value / 0x100 % 0x100][4 * cluster + 2 := value / 0x1_0000 % 0x100]
          [4 * cluster + 3 := value / 0x100_0000 % 0x100]
      ensures history == old(history) + [sectors]
    {
      FatSetBytes(G(), sectors, cluster, value);
      FatEntryPlace(G(), cluster);
      FatPlaceFromByteOffset(cluster);
      var fatOffset := cluster * 4;
      var fatLba := reservedSectors + fatOffset / 512;
      var fatOff := fatOffset % 512;
      var sec := ReadSector(fatLba);
      ghost var before := sec[..];
      assert fatOff + 4 <= 512;
      sec[fatOff] := value % 0x100;
      sec[fatOff + 1] := value / 0x100 % 0x100;
      sec[fatOff + 2] := value / 0x1_0000 % 0x100;
      sec[fatOff + 3] := value / 0x100_0000 % 0x100;
      assert sec[..] == Patched(before, fatOff, Bytes32(value));
      WriteSector(fatLba, sec);
    }

    // ----- scanning one directory cluster -----

    /** The inner loop of lookup and delete. */
    method ScanForName(dirBuf: array<byte>, clusterBytes: nat, shortName: array<byte>) returns (r: Scan)
      requires clusterBytes <= dirBuf.Length && clusterBytes % 32 == 0 && shortName.Length == 11
      ensures r == FindFrom(BufSlots(dirBuf[..clusterBytes]), shortName[..], 0)
    {
      ghost var slots: seq<Slot>, name: Name11 := BufSlots(dirBuf[..clusterBytes]), shortName[..];
      var off := 0;
      while off < clusterBytes
        invariant off <= clusterBytes && off % 32 == 0
        invariant FindFrom(slots, name, 0) == FindFrom(slots, name, off / 32)
      {
        ghost var s := slots[off / 32];
        assert s == dirBuf[off..off + 32];
        if dirBuf[off] == 0x00 {
          return EndMark;
        }
        if dirBuf[off] != 0xE5 && dirBuf[off + 11] != 0x0F {
          assert dirBuf[off..off + 11] == NameOf(s);
          assert shortName[0..11] == name;
          var cmp := Memcmp(dirBuf, off, shortName, 0, 11);
          if cmp == 0 {
            return Hit(off / 32);
          }
        }
        off := off + 32;
      }
      return Miss;
    }

    /** The inner loop of create. */
    method ScanForFree(dirBuf: array<byte>, clusterBytes: nat) returns (r: Scan)
      requires clusterBytes <= dirBuf.Length && clusterBytes % 32 == 0
      ensures r == FreeFrom(BufSlots(dirBuf[..clusterBytes]), 0)
    {
      ghost var slots: seq<Slot> := BufSlots(dirBuf[..clusterBytes]);
      var off := 0;
      while off < clusterBytes
        invariant off <= clusterBytes && off % 32 == 0
        invariant FreeFrom(slots, 0) == FreeFrom(slots, off / 32)
      {
        assert slots[off / 32] == dirBuf[off..off + 32];
        if dirBuf[off] == 0x00 || dirBuf[off] == 0xE5 {
          return Hit(off / 32);
        }
        off := off + 32;
      }
      return Miss;
    }

    /** Read a directory cluster into the buffer. */
    method LoadCluster(cur: nat, dirBuf: array<byte>) returns (lba: nat)
      requires Fits(G(), sectors) && InVolume(G(), cur) && sectorsPerCluster * 512 <= dirBuf.Length
      modifies dirBuf
      ensures lba == Lba(G(), cur)
      ensures dirBuf[..sectorsPerCluster * 512] == ClusterBytes(G(), sectors, cur)
      ensures BufSlots(dirBuf[..sectorsPerCluster * 512]) == ClusterSlots(G(), sectors, cur)
    {
      LbaInRange(G(), cur);
      lba := ClusterToLba(cur);
      ReadSectors(lba, dirBuf, 0, sectorsPerCluster);
      assert dirBuf[..sectorsPerCluster * 512] == dirBuf[0..0 + sectorsPerCluster * 512];
      BufSlotsOfCluster(G(), sectors, cur);
    }

    // ----- lookup -----

    /** The next cluster of the root directory, when nothing in the first k + 1 stopped the walk. */
    method NextDirCluster(ghost g: Geometry, ghost slots: seq<Slot>, ghost goal: Goal, cur: nat, ghost k: nat)
      returns (next: nat)
      requires g == G() && sectorsPerCluster <= 32 && Root(slots) && CanWalk(goal)
      requires k < |rootChain| && cur == rootChain[k] && Unstopped(slots, goal, RootLen(g, k + 1))
      ensures AtCluster(rootChain, k + 1, next)
    {
      WalkGoesOn(g, sectors, rootChain, goal, k);
      next := ReadFatEntry(cur);
    }

    /** Scans cluster k of the root directory for `name`. */
    method ScanCluster(ghost g: Geometry, ghost slots: seq<Slot>, ghost name: Name11, cur: nat, ghost k: nat,
                       shortName: array<byte>, dirBuf: array<byte>)
      returns (lba: nat, r: Scan)
      requires g == G() && sectorsPerCluster <= 32 && Root(slots)
      requires k < |rootChain| && cur == rootChain[k] && Searched(slots, name, RootLen(g, k))
      requires shortName.Length == 11 && shortName[..] == name && dirBuf.Length == 16384 && dirBuf != shortName
      modifies dirBuf
      ensures r.EndMark? ==> NoEntry(slots, name)
      ensures r.Miss? ==> Searched(slots, name, RootLen(g, k + 1))
      ensures r.Hit? ==>
        && EntryIn(slots, name, RootLen(g, k) + r.at, dirBuf[..], 32 * r.at)
        && Place(g, rootChain, RootLen(g, k) + r.at, lba, 32 * r.at)
    {
      lba := LoadCluster(cur, dirBuf);
      r := ScanForName(dirBuf, sectorsPerCluster * 512, shortName);
      assert dirBuf[..][..sectorsPerCluster * 512] == dirBuf[..sectorsPerCluster * 512];
      ScanStep(g, sectors, rootChain, slots, name, k, r, dirBuf[..]);
    }

    /** The directory walk that lookup and delete share.  At a hit, `lba` is the first sector of the
        directory cluster in the buffer and `off` the offset of the entry in it. */
    method FindEntry(ghost g: Geometry, ghost slots: seq<Slot>, ghost name: Name11,
                     shortName: array<byte>, dirBuf: array<byte>)
      returns (found: bool, lba: nat, off: nat, ghost at: nat)
      requires g == G() && sectorsPerCluster <= 32 && Root(slots) && CanWalk(Entry(name))
      requires shortName.Length == 11 && shortName[..] == name && dirBuf.Length == 16384 && dirBuf != shortName
      modifies dirBuf
      ensures !found ==> NoEntry(slots, name)
      ensures found ==> EntryIn(slots, name, at, dirBuf[..], off) && Place(g, rootChain, at, lba, off)
    {
      var cur := rootCluster;
      ghost var k := 0;
      while 2 <= cur < 0x0FFF_FFF8
        invariant AtCluster(rootChain, k, cur)
        invariant Searched(slots, name, RootLen(g, k))
        decreases |rootChain| - k
      {
        var r;
        lba, r := ScanCluster(g, slots, name, cur, k, shortName, dirBuf);
        if r.EndMark? {
          return false, lba, 0, 0;
        }
        if r.Hit? {
          return true, lba, 32 * r.at, RootLen(g, k) + r.at;
        }
        cur := NextDirCluster(g, slots, Entry(name), cur, k);
        k := k + 1;
      }
      SearchEnd(slots, name, RootLen(g, k));
      return false, 0, 0, 0;
    }

    method Lookup(name: CString) returns (rc: int, cluster: nat, size: nat)
      requires Ready() && CanWalk(Entry(ShortName(name)))
      ensures sectorsPerCluster * 512 > 16384 ==> rc == -3
      ensures sectorsPerCluster * 512 <= 16384 ==>
        var slots, r := RootSlots(G(), sectors, rootChain), Search(name);
        && (r.Hit? ==> rc == 0 && cluster == ClusterOf(slots[r.at]) && size == SizeOf(slots[r.at]))
        && (!r.Hit? ==> rc == -1)
      ensures sectorsPerCluster * 512 <= 16384 ==>
        LookupInBytes(RootSlots(G(), sectors, rootChain), ShortName(name), rc, cluster, size)
    {
      cluster, size := 0, 0;
      LookupMeans(RootSlots(G(), sectors, rootChain), ShortName(name));
      var shortName := new byte[11];
      MakeShortName(name, shortName);
      if sectorsPerCluster * bytesPerSector > 16384 {
        return -3, 0, 0;
      }
      var dirBuf := new byte[16384];
      ghost var slots := RootSlots(G(), sectors, rootChain);
      var found, lba, off, i := FindEntry(G(), slots, ShortName(name), shortName, dirBuf);
      if !found {
        return -1, 0, 0;
      }
      cluster := EntryCluster(dirBuf, off);
      size := EntrySize(dirBuf, off);
      rc := 0;
    }

    // ----- delete -----

    /** The release loop of delete. */
    method ReleaseChain(ghost g: Geometry, start: nat)
      requires g == G() && Fits(g, sectors) && StaysInside(FatView(g, sectors), start)
      modifies `sectors, `history
      ensures sectors == ReleaseDisk(g, old(sectors), start)
      ensures history == old(history) + ReleaseStates(g, old(sectors), start)
    {
      ghost var d0 := sectors;
      var c := start;
      while 2 <= c < 0x0FFF_FFF8
        invariant g == G() && Fits(g, sectors) && StaysInside(FatView(g, sectors), c)
        invariant ReleaseDisk(g, sectors, c) == ReleaseDisk(g, d0, start)
        invariant history + ReleaseStates(g, sectors, c) == old(history) + ReleaseStates(g, d0, start)
        decreases NonZero(FatView(g, sectors)), if IsLink(c) then 1 else 0
      {
        StaysInsideNext(FatView(g, sectors), c);
        ReleaseRound(g, sectors, c, history);
        ReleaseProgress(g, sectors, c);
        var next := ReadFatEntry(c);
        WriteFatEntry(c, 0);
        c := next;
      }
      assert history + [] == history;
    }

    /** First half of delete: clear the first byte of slot i. */
    method EraseEntry(ghost g: Geometry, lba: nat, off: nat, ghost i: nat)
      requires Fits(g, sectors) && AllInVolume(g, rootChain) && i < RootLen(g, |rootChain|)
      requires Place(g, rootChain, i, lba, off)
      modifies `sectors, `history
      ensures sectors == EraseDisk(g, old(sectors), rootChain, i)
      ensures history == old(history) + [sectors]
    {
      var elba := lba + off / 512;
      var eoff := off % 512;
      DeletePlace(g, sectors, rootChain, i, lba, off, elba, eoff);
      var sec := ReadSector(elba);
      sec[eoff] := 0xE5;
      WriteSector(elba, sec);
    }

    method RemoveEntry(ghost g: Geometry, lba: nat, off: nat, cl: nat, ghost i: nat) returns (ghost writes: seq<Disk>)
      requires g == G() && Fits(g, sectors) && AllInVolume(g, rootChain) && i < RootLen(g, |rootChain|)
      requires Place(g, rootChain, i, lba, off)
      requires cl == ClusterOf(RootSlots(g, sectors, rootChain)[i])
      requires StaysInside(FatView(g, sectors), cl)
      modifies `sectors, `history
      ensures Deleted(g, old(sectors), rootChain, i, sectors, writes)
      ensures history == old(history) + writes
    {
      RemoveInTwoParts(g, sectors, rootChain, i);
      EraseEntry(g, lba, off, i);
      writes := [sectors] + ReleaseStates(g, sectors, cl);
      ReleaseChain(g, cl);
    }

    /** Delete by stored name. */
    method DeleteStored(ghost g: Geometry, ghost name: Name11, shortName: array<byte>)
      returns (rc: int, ghost writes: seq<Disk>)
      requires g == G() && sectorsPerCluster <= 32
      requires shortName.Length == 11 && shortName[..] == name
      requires CanWalk(Entry(name)) && DeletableOn(g, sectors, rootChain, name)
      modifies `sectors, `history
      ensures DeleteOutcome(g, old(sectors), rootChain, name, rc, sectors, writes)
      ensures history == old(history) + writes
    {
      var dirBuf := new byte[16384];
      var found, lba, off, i := FindEntry(g, RootSlots(g, sectors, rootChain), name, shortName, dirBuf);
      if !found {
        return -1, [];
      }
      var cl := EntryCluster(dirBuf, off);
      writes := RemoveEntry(g, lba, off, cl, i);
      rc := 0;
    }

    /** Deletes the first live entry of that name.  `writes` are the contents of the device after
        each of its sector writes. */
    method Delete(name: CString) returns (rc: int, ghost writes: seq<Disk>)
      requires Ready() && CanWalk(Entry(ShortName(name)))
      requires DeletableOn(G(), sectors, rootChain, ShortName(name))
      modifies `sectors, `history
      ensures history == old(history) + writes
      ensures !writable || sectorsPerCluster > 32 ==>
        rc == (if writable then -3 else -1) && writes == [] && sectors == old(sectors)
      ensures writable && sectorsPerCluster <= 32 ==>
        DeleteOutcome(old(G()), old(sectors), rootChain, ShortName(name), rc, sectors, writes)
      ensures old(Valid()) ==> Valid()
    {
      if !writable {
        return -1, [];
      }
      if sectorsPerCluster * bytesPerSector > 16384 {
        return -3, [];
      }
      ghost var g, d0 := G(), sectors;
      var shortName := new byte[11];
      MakeShortName(name, shortName);
      rc, writes := DeleteStored(g, ShortName(name), shortName);
      DeleteKeepsGood(g, d0, rootChain, foreign, ShortName(name), rc, sectors, writes);
      assert G() == g;
    }

    method EntryCluster(dirBuf: array<byte>, off: nat) returns (cl: nat)
      requires off + 32 <= dirBuf.Length
      ensures cl == ClusterOf(dirBuf[off..off + 32])
    {
      var ent := dirBuf[off..off + 32];
      cl := Le16(ent, 26) + 0x1_0000 * Le16(ent, 20);
    }

    method EntrySize(dirBuf: array<byte>, off: nat) returns (size: nat)
      requires off + 32 <= dirBuf.Length
      ensures size == SizeOf(dirBuf[off..off + 32])
    {
      size := Le32(dirBuf[off..off + 32], 28);
    }

    // ----- create -----

    /** One round of create's search for a slot: cluster k of the root directory. */
    method ScanClusterForFree(ghost g: Geometry, ghost slots: seq<Slot>, cur: nat, ghost k: nat, dirBuf: array<byte>)
      returns (lba: nat, r: Scan)
      requires g == G() && sectorsPerCluster <= 32 && Root(slots)
      requires k < |rootChain| && cur == rootChain[k] && Passed(slots, RootLen(g, k)) && dirBuf.Length == 16384
      modifies dirBuf
      ensures r.Hit? ==> FreeAt(g, rootChain, slots, RootLen(g, k) + r.at, lba, 32 * r.at)
      ensures !r.Hit? ==> Passed(slots, RootLen(g, k + 1))
    {
      lba := LoadCluster(cur, dirBuf);
      r := ScanForFree(dirBuf, sectorsPerCluster * 512);
      FreeStep(g, sectors, rootChain, slots, k, r);
    }

    method FindFree(ghost g: Geometry, ghost slots: seq<Slot>) returns (found: bool, lba: nat, off: nat, ghost at: nat)
      requires g == G() && sectorsPerCluster <= 32 && Root(slots) && CanWalk(FreeSlot)
      ensures !found ==> NoFree(slots)
      ensures found ==> FreeAt(g, rootChain, slots, at, lba, off)
    {
      var dirBuf := new byte[16384];
      var cur := rootCluster;
      ghost var k := 0;
      while 2 <= cur < 0x0FFF_FFF8
        invariant AtCluster(rootChain, k, cur)
        invariant Passed(slots, RootLen(g, k))
        decreases |rootChain| - k
      {
        var r;
        lba, r := ScanClusterForFree(g, slots, cur, k, dirBuf);
        if r.Hit? {
          return true, lba, 32 * r.at, RootLen(g, k) + r.at;
        }
        cur := NextDirCluster(g, slots, FreeSlot, cur, k);
        k := k + 1;
      }
      FreeEnd(slots, RootLen(g, k));
      return false, 0, 0, 0;
    }

    /** The least free cluster. */
    method AllocateCluster(ghost g: Geometry) returns (freeCluster: nat)
      requires g == G() && Fits(g, sectors) && FirstFree(FatView(g, sectors), 2) < clusters + 2
      ensures freeCluster == FirstFree(FatView(g, sectors), 2)
    {
      freeCluster := 0;
      var c := 2;
      while c < 0x0FFF_FFF0
        invariant 2 <= c <= FirstFree(FatView(g, sectors), 2) == FirstFree(FatView(g, sectors), c)
      {
        var entry := ReadFatEntry(c);
        if entry == 0 {
          return c;
        }
        c := c + 1;
      }
    }

    method BuildEntry(ghost name: Name11, shortName: array<byte>, cluster: nat) returns (ent: array<byte>)
      requires shortName.Length == 11 && shortName[..] == name && cluster < U32
      ensures fresh(ent) && ent.Length == 32 && ent[..] == NewSlot(name, cluster)
    {
      ent := new byte[32];
      Memset(ent, 0, 0, 32);
      Memcpy(ent, 0, shortName, 0, 11);
      ent[11] := 0x20;
      ent[20] := cluster / 0x1_0000 % 0x100;
      ent[21] := cluster / 0x100_0000 % 0x100;
      ent[26] := cluster % 0x100;
      ent[27] := cluster / 0x100 % 0x100;
      EntryBytes(name, cluster, ent[..]);
    }

    method WriteEntry(ghost g: Geometry, lba: nat, off: nat, ent: array<byte>, ghost i: nat)
      requires Fits(g, sectors) && AllInVolume(g, rootChain) && i < RootLen(g, |rootChain|)
      requires Place(g, rootChain, i, lba, off) && ent.Length == 32
      modifies `sectors, `history
      ensures sectors == WriteRoot(g, old(sectors), rootChain, i, ent[..])
      ensures history == old(history) + [sectors]
    {
      var foundLba := lba + off / 512;
      var foundOff := off % 512;
      WriteAtPlace(g, sectors, rootChain, i, lba, off, foundLba, foundOff, ent[..]);
      var sec := ReadSector(foundLba);
      ghost var before := sec[..];
      Memcpy(sec, foundOff, ent, 0, 32);
      assert sec[..] == Patched(before, foundOff, ent[..]);
      WriteSector(foundLba, sec);
    }

    /** Second half of create: write the entry, then mark its cluster as the end of a chain. */
    method PutEntry(ghost g: Geometry, ghost name: Name11, shortName: array<byte>,
                    lba: nat, off: nat, freeCluster: nat, ghost i: nat) returns (ghost writes: seq<Disk>)
      requires g == G() && Fits(g, sectors) && AllInVolume(g, rootChain) && i < RootLen(g, |rootChain|)
      requires Place(g, rootChain, i, lba, off) && freeCluster < clusters + 2
      requires shortName.Length == 11 && shortName[..] == name
      modifies `sectors, `history
      ensures writes == CreateStates(g, old(sectors), rootChain, i, name, freeCluster)
      ensures sectors == writes[1] && history == old(history) + writes
    {
      var ent := BuildEntry(name, shortName, freeCluster);
      WriteEntry(g, lba, off, ent, i);
      writes := [sectors];
      WriteFatEntry(freeCluster, 0x0FFF_FFFF);
      writes := writes + [sectors];
    }

    /** Create behind the search: slot i is the first free one. */
    method CreateAt(ghost g: Geometry, ghost name: Name11, shortName: array<byte>, lba: nat, off: nat, ghost i: nat)
      returns (ghost writes: seq<Disk>)
      requires g == G() && Fits(g, sectors) && AllInVolume(g, rootChain)
      requires FreeAt(g, rootChain, RootSlots(g, sectors, rootChain), i, lba, off)
      requires FirstFree(FatView(g, sectors), 2) < clusters + 2
      requires shortName.Length == 11 && shortName[..] == name
      modifies `sectors, `history, `foreign
      ensures CreateOutcome(g, old(sectors), rootChain, old(foreign), name, 0, sectors, writes, foreign)
      ensures history == old(history) + writes
    {
      var freeCluster := AllocateCluster(g);
      CreateSucceeds(g, sectors, rootChain, foreign, name, i, freeCluster);
      writes := PutEntry(g, name, shortName, lba, off, freeCluster, i);
      foreign := if name[0] == 0xE5 then foreign + {freeCluster} else foreign;
    }

    /** Create by stored name. */
    method CreateStored(ghost g: Geometry, ghost name: Name11, shortName: array<byte>)
      returns (rc: int, ghost writes: seq<Disk>)
      requires g == G() && sectorsPerCluster <= 32
      requires shortName.Length == 11 && shortName[..] == name
      requires CanWalk(FreeSlot) && RoomIfSlot(Abs(g, sectors, rootChain))
      modifies `sectors, `history, `foreign
      ensures CreateOutcome(g, old(sectors), rootChain, old(foreign), name, rc, sectors, writes, foreign)
      ensures history == old(history) + writes
    {
      var found, lba, off, i := FindFree(g, RootSlots(g, sectors, rootChain));
      if found {
        writes := CreateAt(g, name, shortName, lba, off, i);
        return 0, writes;
      }
      CreateFails(g, sectors, rootChain, foreign, name);
      return -2, [];
    }

    method CreateNamed(ghost g: Geometry, name: CString) returns (rc: int, ghost writes: seq<Disk>)
      requires g == G() && sectorsPerCluster <= 32
      requires CanWalk(FreeSlot) && RoomIfSlot(Abs(g, sectors, rootChain))
      modifies `sectors, `history, `foreign
      ensures CreateOutcome(g, old(sectors), rootChain, old(foreign), ShortName(name), rc, sectors, writes, foreign)
      ensures history == old(history) + writes
      ensures old(GoodDisk(g, sectors, rootChain, foreign)) ==>
        Mounted(g, sectors, rootChain) && GoodDisk(g, sectors, rootChain, foreign)
    {
      ghost var d0, f0 := sectors, foreign;
      var shortName := new byte[11];
      MakeShortName(name, shortName);
      rc, writes := CreateStored(g, ShortName(name), shortName);
      ShortNameFirstByte(name);
      CreateKeepsGood(g, d0, rootChain, f0, ShortName(name), rc, sectors, writes, foreign);
    }

    /** Creates an empty file in the first free slot, with the least free cluster. */
    method Create(name: CString) returns (rc: int, ghost writes: seq<Disk>)
      requires Ready() && CanWalk(FreeSlot) && RoomIfSlot(Abs(G(), sectors, rootChain))
      modifies `sectors, `history, `foreign
      ensures history == old(history) + writes
      ensures !writable || sectorsPerCluster > 32 ==>
        rc == (if writable then -3 else -1) && writes == [] && sectors == old(sectors) && foreign == old(foreign)
      ensures writable && sectorsPerCluster <= 32 ==>
        CreateOutcome(old(G()), old(sectors), rootChain, old(foreign), ShortName(name), rc, sectors, writes, foreign)
      ensures old(Valid()) ==> Valid()
    {
      if !writable {
        return -1, [];
      }
      if sectorsPerCluster * bytesPerSector > 16384 {
        return -3, [];
      }
      ghost var g := G();
      rc, writes := CreateNamed(g, name);
      assert G() == g;
    }

    // ----- listing -----

    /** What the listing passes to the callback for the slot at `off`. */
    method ReportEntry(dirBuf: array<byte>, off: nat) returns (r: Report)
      requires off + 32 <= dirBuf.Length
      ensures r == ReportOf(dirBuf[off..off + 32])
    {
      ghost var s: Slot := dirBuf[off..off + 32];
      assert NameOf(s) == dirBuf[off..off + 11];
      var display := new byte[13];
      MakeDisplayName(dirBuf, off, display);
      CStrOfBuffer(display[..], Display(NameOf(s)));
      var size := EntrySize(dirBuf, off);
      r := Report(CStr(display[..]), size);
    }

    /** Slot k of the listing, at `off`. */
    method ListSlot(dirBuf: array<byte>, off: nat, ghost slots: seq<Slot>, ghost k: nat, before: seq<Report>)
      returns (reports: seq<Report>)
      requires off + 32 <= dirBuf.Length && k < |slots| && dirBuf[off..off + 32] == slots[k]
      requires !IsEnd(slots[k]) && ListedIn(slots, k, before)
      ensures ListedIn(slots, k + 1, reports)
    {
      ListedInNext(slots, k, before);
      assert dirBuf[off] == slots[k][0] && dirBuf[off + 11] == slots[k][11];
      reports := before;
      if dirBuf[off] != 0xE5 && dirBuf[off + 11] != 0x0F {
        var r := ReportEntry(dirBuf, off);
        reports := before + [r];
      }
    }

    /** The inner loop of the listing. */
    method ListBuffer(dirBuf: array<byte>, clusterBytes: nat) returns (reports: seq<Report>, ended: bool)
      requires clusterBytes <= dirBuf.Length && clusterBytes % 32 == 0
      ensures reports == Reports(EntriesFrom(BufSlots(dirBuf[..clusterBytes]), 0))
      ensures ended == HasEnd(BufSlots(dirBuf[..clusterBytes]), 0)
    {
      ghost var slots: seq<Slot> := BufSlots(dirBuf[..clusterBytes]);
      assert clusterBytes == 32 * |slots|;
      reports := [];
      var off := 0;
      ghost var k := 0;
      while off < clusterBytes
        invariant off == 32 * k && k <= |slots|
        invariant ListedIn(slots, k, reports)
      {
        BufSlotAt(dirBuf, clusterBytes, k);
        if dirBuf[off] == 0x00 {
          ListedInEnd(slots, k, reports);
          return reports, true;
        }
        reports := ListSlot(dirBuf, off, slots, k, reports);
        off, k := off + 32, k + 1;
      }
      ListedInEnd(slots, k, reports);
      return reports, false;
    }

    /** One round of the listing: cluster k of the root directory. */
    method ListCluster(ghost g: Geometry, ghost slots: seq<Slot>, cur: nat, ghost k: nat, dirBuf: array<byte>,
                       before: seq<Report>)
      returns (reports: seq<Report>, ended: bool)
      requires g == G() && sectorsPerCluster <= 32 && Root(slots)
      requires k < |rootChain| && cur == rootChain[k] && ListedIn(slots, RootLen(g, k), before)
      requires dirBuf.Length == 16384
      modifies dirBuf
      ensures ended ==> reports == Reports(EntriesFrom(slots, 0))
      ensures !ended ==> ListedIn(slots, RootLen(g, k + 1), reports)
    {
      var lba := LoadCluster(cur, dirBuf);
      reports, ended := ListBuffer(dirBuf, sectorsPerCluster * 512);
      ListStep(g, sectors, rootChain, slots, k, before, reports, ended);
      reports := before + reports;
    }

    /** The walk of the listing. */
    method ListRoot(ghost g: Geometry, ghost slots: seq<Slot>) returns (reports: seq<Report>)
      requires g == G() && sectorsPerCluster <= 32 && Root(slots) && CanWalk(Listing)
      ensures reports == Reports(EntriesFrom(slots, 0))
    {
      var dirBuf := new byte[16384];
      var cur := rootCluster;
      reports := [];
      ghost var k := 0;
      while 2 <= cur < 0x0FFF_FFF8
        invariant AtCluster(rootChain, k, cur)
        invariant ListedIn(slots, RootLen(g, k), reports)
        decreases |rootChain| - k
      {
        var ended;
        reports, ended := ListCluster(g, slots, cur, k, dirBuf, reports);
        if ended {
          return;
        }
        cur := NextDirCluster(g, slots, Listing, cur, k);
        k := k + 1;
      }
      ListedInEnd(slots, RootLen(g, k), reports);
    }

    /** All callbacks of a listing, in order. */
    method DirList() returns (rc: int, reports: seq<Report>)
      requires Ready() && CanWalk(Listing)
      ensures sectorsPerCluster * 512 > 16384 ==> rc == -3 && reports == []
      ensures sectorsPerCluster * 512 <= 16384 ==>
        && rc == 0 && reports == Reports(EntriesFrom(RootSlots(G(), sectors, rootChain), 0))
        && ListsVisible(RootSlots(G(), sectors, rootChain), reports)
    {
      if sectorsPerCluster * bytesPerSector > 16384 {
        return -3, [];
      }
      ghost var slots := RootSlots(G(), sectors, rootChain);
      reports := ListRoot(G(), slots);
      ListingInBytes(slots);
      rc := 0;
    }

    // ----- reading -----

    /** One round of the read loop: the part of cluster `cur` that is still wanted. */
    method ReadRound(ghost g: Geometry, cur: nat, left: nat, buf: array<byte>, out: nat) returns (toRead: nat)
      requires g == G() && bytesPerSector == 512 && Fits(g, sectors) && InVolume(g, cur)
      requires left > 0 && out % 512 == 0 && RoundUp(out + left) <= buf.Length
      modifies buf
      ensures toRead == Wanted(g, left)
      ensures out <= out + toRead <= RoundUp(out + toRead) <= buf.Length
      ensures buf[..out + toRead] == old(buf[..out]) + ClusterBytes(g, sectors, cur)[..toRead]
      ensures buf[RoundUp(out + toRead)..] == old(buf[RoundUp(out + toRead)..])
    {
      ghost var bs := ClusterBytes(g, sectors, cur);
      var clusterBytes := sectorsPerCluster * bytesPerSector;
      toRead := if left < clusterBytes then left else clusterBytes;
      var secs := (toRead + 512 - 1) / 512;
      ReadPlan(out, left, toRead, sectorsPerCluster);
      ghost var end := RoundUp(out + toRead);
      ReadPart(g, cur, bs, secs, toRead, buf, out, end);
    }

    method ReadPart(ghost g: Geometry, cur: nat, ghost bs: seq<byte>, secs: nat, ghost n: nat,
                    buf: array<byte>, out: nat, ghost end: nat)
      requires g == G() && Fits(g, sectors) && InVolume(g, cur) && bs == ClusterBytes(g, sectors, cur)
      requires secs <= sectorsPerCluster && n <= secs * 512 && out + secs * 512 == end <= buf.Length
      modifies buf
      ensures n <= |bs| && buf[..out + n] == old(buf[..out]) + bs[..n]
      ensures buf[end..] == old(buf[end..])
    {
      LbaInRange(g, cur);
      var lba := ClusterToLba(cur);
      SpanPrefix(sectors, lba, secs, sectorsPerCluster, n);
      ReadSectors(lba, buf, out, secs);
      assert buf[..out + n] == buf[..out] + buf[out..out + secs * 512][..n];
    }

    /** A round of the read loop: cluster `cur` into the buffer, then on to its successor. */
    method ReadOne(ghost g: Geometry, ghost c: nat, ghost size: nat, cur: nat, left: nat, buf: array<byte>, out: nat)
      returns (n: nat, next: nat)
      requires g == G() && bytesPerSector == 512 && Fits(g, sectors)
      requires IsLink(cur) && left > 0 && Reading(g, sectors, c, size, cur, left, buf[..], out)
      modifies buf
      ensures n == Wanted(g, left) && Reading(g, sectors, c, size, next, left - n, buf[..], out + n)
      ensures RestSame(old(buf[..]), buf[..], RoundUp(out + n))
    {
      ghost var before := buf[..];
      n := ReadRound(g, cur, left, buf, out);
      next := ReadFatEntry(cur);
      assert before[..out] == old(buf[..out]) && buf[..][..out + n] == buf[..out + n];
      ReadStep(g, sectors, c, size, cur, left, before, out, buf[..]);
    }

    /** Reads `size` bytes of the chain that starts at `cluster` into the front of `buf`.  What lies
        behind the last whole sector read stays as it was. */
    method ReadFile(cluster: nat, size: nat, buf: array<byte>) returns (rc: int, ghost got: nat)
      requires bytesPerSector == 512 && Fits(G(), sectors) && ReadInside(G(), sectors, cluster, size)
      requires RoundUp(size) <= buf.Length
      modifies buf
      ensures rc == 0
      ensures got == |ReadBytes(G(), sectors, cluster, size)| <= size
      ensures buf[..got] == ReadBytes(G(), sectors, cluster, size)
      ensures RoundUp(got) <= buf.Length && buf[RoundUp(got)..] == old(buf[RoundUp(got)..])
    {
      ghost var g, d, before := G(), sectors, buf[..];
      var out: nat, left: nat, cur: nat := 0, size, cluster;
      assert before[..0] == [];
      while 2 <= cur < 0x0FFF_FFF8 && left > 0
        invariant Reading(g, d, cluster, size, cur, left, buf[..], out)
        invariant RestSame(before, buf[..], RoundUp(out))
        decreases left
      {
        ghost var now := buf[..];
        var n;
        n, cur := ReadOne(g, cluster, size, cur, left, buf, out);
        RoundUpMonotone(out, out + n);
        RestStillSame(before, now, buf[..], RoundUp(out), RoundUp(out + n));
        out := out + n;
        left := left - n;
      }
      got := out;
      ReadDone(g, d, cluster, size, cur, left, buf[..], out);
      rc := 0;
    }
  }
}
