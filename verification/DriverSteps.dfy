/** The steps of the FAT32 driver's loops, on disks as values: what one round of a directory walk, of
    the release loop or of the read loop contributes to the whole operation, and what the finished
    operations amount to. */
module DriverSteps {
  import opened Bytes
  import opened CStrings
  import opened FatTable
  import opened Chains
  import opened Directory
  import opened SlotBytes
  import opened Names
  import opened Volumes
  import opened DiskImage
  import opened DiskOps
  import opened DirectoryWalks
  import opened FileContents

  /** The slots that a buffer holds. */
  function BufSlots(bs: seq<byte>): (r: seq<Slot>)
    ensures |r| == |bs| / 32
    ensures forall s :: 0 <= s < |r| ==> r[s] == bs[32 * s..32 * s + 32]
  {
    seq(|bs| / 32, s requires 0 <= s < |bs| / 32 => bs[32 * s..32 * s + 32])
  }

  lemma BufSlotsOfCluster(g: Geometry, d: Disk, c: nat)
    requires Fits(g, d) && InVolume(g, c)
    ensures BufSlots(ClusterBytes(g, d, c)) == ClusterSlots(g, d, c)
  {
    var a, b := BufSlots(ClusterBytes(g, d, c)), ClusterSlots(g, d, c);
    forall s | 0 <= s < 16 * g.spc ensures a[s] == b[s] {
      ClusterSlotBytes(g, d, c, s);
    }
  }

  lemma SlotOfBuffer(buf: seq<byte>, n: nat, s: nat)
    requires n <= |buf| && s < n / 32
    ensures 32 * s + 32 <= |buf| && BufSlots(buf[..n])[s] == buf[32 * s..32 * s + 32]
  {
    assert buf[..n][32 * s..32 * s + 32] == buf[32 * s..32 * s + 32];
  }

  lemma BufSlotAt(buf: array<byte>, n: nat, s: nat)
    requires n <= buf.Length && s < n / 32
    ensures BufSlots(buf[..n])[s] == buf[32 * s..32 * s + 32]
  {
    assert buf[..n][32 * s..32 * s + 32] == buf[32 * s..32 * s + 32];
  }

  /** A walk along the root chain stands at its k-th cluster, or behind its end. */
  ghost predicate AtCluster(rc: seq<nat>, k: nat, cur: nat) {
    k <= |rc| && if k < |rc| then cur == rc[k] else !IsLink(cur)
  }

  lemma SlotInRoot(g: Geometry, d: Disk, rc: seq<nat>, k: nat, s: nat)
    requires Fits(g, d) && AllInVolume(g, rc) && k < |rc| && s < 16 * g.spc
    ensures RootLen(g, k) + s < RootLen(g, |rc|)
    ensures RootSlots(g, d, rc)[RootLen(g, k) + s] == ClusterSlots(g, d, rc[k])[s]
  {
    var all, base, loc := RootSlots(g, d, rc), RootLen(g, k), ClusterSlots(g, d, rc[k]);
    RootWindow(g, d, rc, k);
    WindowAt(all, base, loc, s);
  }

  /** Slot i of the directory lies at offset `off` behind the start of sector `lba`, where a cluster
      of the directory begins. */
  ghost predicate Place(g: Geometry, rc: seq<nat>, i: nat, lba: nat, off: nat)
    requires AllInVolume(g, rc)
  {
    exists k, s :: 0 <= k < |rc| && 0 <= s < 16 * g.spc && PlaceAt(g, rc, i, lba, off, k, s)
  }

  ghost predicate PlaceAt(g: Geometry, rc: seq<nat>, i: nat, lba: nat, off: nat, k: nat, s: nat)
    requires AllInVolume(g, rc) && k < |rc|
  {
    lba == Lba(g, rc[k]) && off == 32 * s && i == RootLen(g, k) + s
  }

  lemma PlaceOf(g: Geometry, rc: seq<nat>, k: nat, s: nat)
    requires AllInVolume(g, rc) && k < |rc| && s < 16 * g.spc
    ensures Place(g, rc, RootLen(g, k) + s, Lba(g, rc[k]), 32 * s)
  {
    assert PlaceAt(g, rc, RootLen(g, k) + s, Lba(g, rc[k]), 32 * s, k, s);
  }

  // ----- searching for a name; `slots` are those of the directory -----

  /** The search has passed the first n slots. */
  ghost predicate Searched(slots: seq<Slot>, name: Name11, n: nat) {
    FindFrom(slots, name, 0) == FindFrom(slots, name, n)
  }

  ghost predicate NoEntry(slots: seq<Slot>, name: Name11) {
    !FindFrom(slots, name, 0).Hit?
  }

  /** The search hits slot i, whose bytes are at `off` in the buffer. */
  ghost predicate EntryIn(slots: seq<Slot>, name: Name11, i: nat, buf: seq<byte>, off: nat) {
    && FindFrom(slots, name, 0) == Hit(i)
    && off + 32 <= |buf| && buf[off..off + 32] == slots[i]
  }

  /** Searching the directory from cluster k on is searching this cluster, then the ones behind it. */
  lemma FindInCluster(g: Geometry, d: Disk, rc: seq<nat>, slots: seq<Slot>, name: Name11, k: nat)
    requires Fits(g, d) && AllInVolume(g, rc) && slots == RootSlots(g, d, rc) && k < |rc|
    ensures FindFrom(slots, name, RootLen(g, k)) == match FindFrom(ClusterSlots(g, d, rc[k]), name, 0)
              case Hit(s) => Hit(RootLen(g, k) + s)
              case EndMark => EndMark
              case Miss => FindFrom(slots, name, RootLen(g, k + 1))
  {
    RootWindowEnd(g, d, rc, k);
    FindInWindow(slots, RootLen(g, k), ClusterSlots(g, d, rc[k]), name, 0, RootLen(g, k), RootLen(g, k + 1));
  }

  /** One more cluster scanned. */
  lemma ScanStep(g: Geometry, d: Disk, rc: seq<nat>, slots: seq<Slot>, name: Name11, k: nat, r: Scan, buf: seq<byte>)
    requires Fits(g, d) && AllInVolume(g, rc) && slots == RootSlots(g, d, rc) && k < |rc|
    requires g.spc * 512 <= |buf| && BufSlots(buf[..g.spc * 512]) == ClusterSlots(g, d, rc[k])
    requires Searched(slots, name, RootLen(g, k)) && r == FindFrom(ClusterSlots(g, d, rc[k]), name, 0)
    ensures r.EndMark? ==> NoEntry(slots, name)
    ensures r.Miss? ==> Searched(slots, name, RootLen(g, k + 1))
    ensures r.Hit? ==>
      && EntryIn(slots, name, RootLen(g, k) + r.at, buf, 32 * r.at)
      && Place(g, rc, RootLen(g, k) + r.at, Lba(g, rc[k]), 32 * r.at)
  {
    FindInCluster(g, d, rc, slots, name, k);
    if r.Hit? {
      SlotInRoot(g, d, rc, k, r.at);
      PlaceOf(g, rc, k, r.at);
      SlotOfBuffer(buf, g.spc * 512, r.at);
    }
  }

  lemma SearchEnd(slots: seq<Slot>, name: Name11, n: nat)
    requires Searched(slots, name, n) && n >= |slots|
    ensures NoEntry(slots, name)
  {
  }

  /** A lookup's answer, by bytes: the first visible slot of that name gives its cluster number and its
      size; without one the answer is -1. */
  ghost predicate LookupInBytes(slots: seq<Slot>, name: Name11, res: int, cluster: nat, size: nat) {
    && (res == 0 ==> exists i :: EntryFields(slots, name, i, cluster, size))
    && (res != 0 ==> res == -1 && forall i :: !FirstMatch(slots, name, i))
  }

  ghost predicate EntryFields(slots: seq<Slot>, name: Name11, i: nat, cluster: nat, size: nat) {
    FirstMatch(slots, name, i) &&
    var s := slots[i];
    && cluster == s[26] as int + 0x100 * s[27] as int + 0x1_0000 * s[20] as int + 0x100_0000 * s[21] as int
    && size == s[28] as int + 0x100 * s[29] as int + 0x1_0000 * s[30] as int + 0x100_0000 * s[31] as int
  }

  lemma LookupMeans(slots: seq<Slot>, name: Name11)
    ensures var r := FindFrom(slots, name, 0);
      if r.Hit? then LookupInBytes(slots, name, 0, ClusterOf(slots[r.at]), SizeOf(slots[r.at]))
      else LookupInBytes(slots, name, -1, 0, 0)
  {
    var r := FindFrom(slots, name, 0);
    if r.Hit? {
      FindIsFirstMatch(slots, name, r.at);
      assert EntryFields(slots, name, r.at, ClusterOf(slots[r.at]), SizeOf(slots[r.at]));
    } else {
      forall i: nat ensures !FirstMatch(slots, name, i) {
        FindIsFirstMatch(slots, name, i);
      }
    }
  }

  // ----- writing at a place -----

  /** Slot i of the directory is the 32 bytes at offset o of sector l, and overwriting them with e is
      writing the directory's slot of that number. */
  ghost predicate SlotLiesAt(g: Geometry, d: Disk, rc: seq<nat>, i: nat, l: nat, o: nat, e: Slot)
    requires Fits(g, d) && AllInVolume(g, rc)
  {
    && i < RootLen(g, |rc|) && l < |d| && o + 32 <= 512
    && RootSlots(g, d, rc)[i] == d[l][o..o + 32]
    && d[l := Patched(d[l], o, e)] == WriteRoot(g, d, rc, i, e)
  }

  lemma WriteAtPlace(g: Geometry, d: Disk, rc: seq<nat>, i: nat, lba: nat, off: nat, l: nat, o: nat, e: Slot)
    requires Fits(g, d) && AllInVolume(g, rc) && Place(g, rc, i, lba, off)
    requires l == lba + off / 512 && o == off % 512
    ensures SlotLiesAt(g, d, rc, i, l, o, e)
  {
    var k, s :| 0 <= k < |rc| && 0 <= s < 16 * g.spc && PlaceAt(g, rc, i, lba, off, k, s);
    SlotByteIndex(s, 0);
    WriteAtSlot(g, d, rc, k, s, i, l, o, e);
  }

  lemma WriteAtSlot(g: Geometry, d: Disk, rc: seq<nat>, k: nat, s: nat, i: nat, l: nat, o: nat, e: Slot)
    requires Fits(g, d) && AllInVolume(g, rc) && k < |rc| && s < 16 * g.spc
    requires i == RootLen(g, k) + s && l == Lba(g, rc[k]) + s / 16 && o == 32 * (s % 16)
    ensures SlotLiesAt(g, d, rc, i, l, o, e)
  {
    SlotAtSector(g, d, rc, k, s);
    WriteRootAt(g, d, rc, k, s, e);
  }

  lemma SlotAtSector(g: Geometry, d: Disk, rc: seq<nat>, k: nat, s: nat)
    requires Fits(g, d) && AllInVolume(g, rc) && k < |rc| && s < 16 * g.spc
    ensures RootLen(g, k) + s < RootLen(g, |rc|) && Lba(g, rc[k]) + s / 16 < |d|
    ensures RootSlots(g, d, rc)[RootLen(g, k) + s] == SlotIn(d[Lba(g, rc[k]) + s / 16], s % 16)
  {
    LbaInRange(g, rc[k]);
    SlotInRoot(g, d, rc, k, s);
  }

  /** Clearing a slot's first byte in the sector is writing the erased slot. */
  lemma EraseByte(sec: Sector, o: nat)
    requires o + 32 <= 512
    ensures sec[o := 0xE5] == Patched(sec, o, Erased(sec[o..o + 32]))
  {
  }

  /** The place of the byte that delete overwrites. */
  lemma DeletePlace(g: Geometry, d: Disk, rc: seq<nat>, i: nat, lba: nat, off: nat, l: nat, o: nat)
    requires Fits(g, d) && AllInVolume(g, rc) && i < RootLen(g, |rc|) && Place(g, rc, i, lba, off)
    requires l == lba + off / 512 && o == off % 512
    ensures l < |d| && o < 512 && d[l := d[l][o := 0xE5]] == EraseDisk(g, d, rc, i)
  {
    WriteAtPlace(g, d, rc, i, lba, off, l, o, Erased(RootSlots(g, d, rc)[i]));
    EraseByte(d[l], o);
  }

  /** What one round of the release loop does to the states still to come. */
  lemma ReleaseRound(g: Geometry, d: Disk, c: nat, before: seq<Disk>)
    requires Fits(g, d) && InFat(FatView(g, d), c) && StaysInside(FatView(g, d), c)
    ensures var d1, next := FatSet(g, d, c, 0), FatGet(g, d, c);
      && StaysInside(FatView(g, d1), next)
      && ReleaseDisk(g, d, c) == ReleaseDisk(g, d1, next)
      && (before + [d1]) + ReleaseStates(g, d1, next) == before + ReleaseStates(g, d, c)
  {
    FatViewSet(g, d, c, 0);
    StaysInsideCleared(FatView(g, d), c);
    ReleaseUnfold(g, d, c);
    var d1, next := FatSet(g, d, c, 0), FatGet(g, d, c);
    assert (before + [d1]) + ReleaseStates(g, d1, next) == before + ([d1] + ReleaseStates(g, d1, next));
  }

  /** A round clears an allocated entry, or it is the last. */
  lemma ReleaseProgress(g: Geometry, d: Disk, c: nat)
    requires Fits(g, d) && InFat(FatView(g, d), c)
    ensures var n, n1 := NonZero(FatView(g, d)), NonZero(FatView(g, FatSet(g, d, c, 0)));
      n1 < n || (n1 == n && !IsLink(FatGet(g, d, c)))
  {
    FatViewSet(g, d, c, 0);
    NonZeroCleared(FatView(g, d), c);
  }

  /** Slot i was deleted, by these writes. */
  ghost predicate Deleted(g: Geometry, d: Disk, rc: seq<nat>, i: nat, d': Disk, writes: seq<Disk>) {
    && Fits(g, d) && AllInVolume(g, rc) && i < RootLen(g, |rc|)
    && d' == RemoveDisk(g, d, rc, i) && writes == RemoveStates(g, d, rc, i)
  }

  lemma RemoveInTwoParts(g: Geometry, d: Disk, rc: seq<nat>, i: nat)
    requires Fits(g, d) && AllInVolume(g, rc) && i < RootLen(g, |rc|)
    ensures var c, d1 := ClusterOf(RootSlots(g, d, rc)[i]), EraseDisk(g, d, rc, i);
      && FatView(g, d1) == FatView(g, d)
      && Deleted(g, d, rc, i, ReleaseDisk(g, d1, c), [d1] + ReleaseStates(g, d1, c))
  {
    EraseKeepsFat(g, d, rc, i);
  }

  /** A delete of `name` stays within the table: the chain it releases has no wild links. */
  ghost predicate DeletableOn(g: Geometry, d: Disk, rc: seq<nat>, name: Name11)
    requires Fits(g, d) && AllInVolume(g, rc)
  {
    var r := FindFrom(RootSlots(g, d, rc), name, 0);
    r.Hit? ==> StaysInside(FatView(g, d), ClusterOf(RootSlots(g, d, rc)[r.at]))
  }

  /** On a well-formed disk every delete does. */
  lemma GoodIsDeletable(g: Geometry, d: Disk, rc: seq<nat>, foreign: set<nat>, name: Name11)
    requires GoodDisk(g, d, rc, foreign)
    ensures DeletableOn(g, d, rc, name)
  {
    var cs: Owners :| DiskInv(g, d, rc, cs, foreign);
    var v, r := Abs(g, d, rc), FindFrom(RootSlots(g, d, rc), name, 0);
    if r.Hit? {
      FindIsFirstLive(v.slots, name, 0, r.at);
      assert SlotChain(v.fat, v.slots[r.at], cs[r.at]);
      ChainStaysInside(v.fat, ClusterOf(v.slots[r.at]), cs[r.at]);
    }
  }

  /** What delete reports and leaves behind: the first live entry of that name is gone, its chain
      released, by exactly the writes of RemoveStates; or there is none and nothing happened. */
  ghost predicate DeleteOutcome(g: Geometry, d: Disk, rc: seq<nat>, name: Name11, res: int, d': Disk, writes: seq<Disk>)
    requires Fits(g, d) && AllInVolume(g, rc)
  {
    var r := FindFrom(RootSlots(g, d, rc), name, 0);
    if r.Hit? then res == 0 && Deleted(g, d, rc, r.at, d', writes)
    else res == -1 && d' == d && writes == []
  }

  lemma DeleteKeepsGood(g: Geometry, d: Disk, rc: seq<nat>, foreign: set<nat>, name: Name11,
                        res: int, d': Disk, writes: seq<Disk>)
    requires Fits(g, d) && AllInVolume(g, rc) && DeleteOutcome(g, d, rc, name, res, d', writes)
    ensures GoodDisk(g, d, rc, foreign) ==> GoodDisk(g, d', rc, foreign) && Mounted(g, d', rc)
  {
    var r := FindFrom(RootSlots(g, d, rc), name, 0);
    if GoodDisk(g, d, rc, foreign) && r.Hit? {
      var cs: Owners :| DiskInv(g, d, rc, cs, foreign);
      FindIsFirstLive(RootSlots(g, d, rc), name, 0, r.at);
      RemoveDiskKeeps(g, d, rc, cs, foreign, r.at);
    }
  }

  // ----- create -----

  /** No free slot among the first n. */
  ghost predicate Passed(slots: seq<Slot>, n: nat) {
    FreeFrom(slots, 0) == FreeFrom(slots, n)
  }

  ghost predicate NoFree(slots: seq<Slot>) {
    !FreeFrom(slots, 0).Hit?
  }

  /** Slot i is the first free one, and lies at that place. */
  ghost predicate FreeAt(g: Geometry, rc: seq<nat>, slots: seq<Slot>, i: nat, lba: nat, off: nat)
    requires AllInVolume(g, rc)
  {
    FreeFrom(slots, 0) == Hit(i) && Place(g, rc, i, lba, off)
  }

  lemma FreeStep(g: Geometry, d: Disk, rc: seq<nat>, slots: seq<Slot>, k: nat, r: Scan)
    requires Fits(g, d) && AllInVolume(g, rc) && slots == RootSlots(g, d, rc) && k < |rc|
    requires Passed(slots, RootLen(g, k)) && r == FreeFrom(ClusterSlots(g, d, rc[k]), 0)
    ensures r.Hit? ==> FreeAt(g, rc, slots, RootLen(g, k) + r.at, Lba(g, rc[k]), 32 * r.at)
    ensures !r.Hit? ==> Passed(slots, RootLen(g, k + 1))
  {
    RootWindowEnd(g, d, rc, k);
    FreeInWindow(slots, RootLen(g, k), ClusterSlots(g, d, rc[k]), 0, RootLen(g, k), RootLen(g, k + 1));
    if r.Hit? {
      PlaceOf(g, rc, k, r.at);
    }
  }

  lemma FreeEnd(slots: seq<Slot>, n: nat)
    requires Passed(slots, n) && n >= |slots|
    ensures NoFree(slots)
  {
  }

  /** The bytes that create puts into the entry buffer. */
  lemma EntryBytes(name: Name11, c: nat, ent: seq<byte>)
    requires |ent| == 32 && ent[..11] == name && ent[11] == 0x20
    requires var bs := Bytes32(c); ent[20] == bs[2] && ent[21] == bs[3] && ent[26] == bs[0] && ent[27] == bs[1]
    requires forall k :: 12 <= k < 20 || 22 <= k < 26 || 28 <= k < 32 ==> ent[k] == 0
    ensures ent == NewSlot(name, c)
  {
    var s := NewSlot(name, c);
    forall k | 0 <= k < 32 ensures ent[k] == s[k] {
      if k < 11 {
        assert ent[k] == ent[..11][k];
      }
    }
  }

  /** The disks after each of create's two writes: the slot, then the table entry. */
  function CreateStates(g: Geometry, d: Disk, rc: seq<nat>, i: nat, name: Name11, c: nat): seq<Disk>
    requires Fits(g, d) && AllInVolume(g, rc) && i < RootLen(g, |rc|) && c < g.clusters + 2
  {
    var d1 := WriteRoot(g, d, rc, i, NewSlot(name, c));
    [d1, FatSet(g, d1, c, 0x0FFF_FFFF)]
  }

  /** What create reports and leaves behind: a new entry in the first free slot with the least free
      cluster, by two writes; or no slot was free and nothing happened.  f and f2 are the clusters
      without an owner before and after. */
  ghost predicate CreateOutcome(g: Geometry, d: Disk, rc: seq<nat>, f: set<nat>, name: Name11,
                                res: int, d': Disk, writes: seq<Disk>, f2: set<nat>)
    requires Fits(g, d) && AllInVolume(g, rc)
  {
    var v := Abs(g, d, rc);
    if HasRoom(v) then
      && res == 0 && d' == CreateDisk(g, d, rc, name)
      && writes == CreateStates(g, d, rc, FreeFrom(v.slots, 0).at, name, FirstFree(v.fat, 2))
      && f2 == f + Leak(v, Create(name))
    else res == -2 && d' == d && writes == [] && f2 == f
  }

  lemma CreateSucceeds(g: Geometry, d: Disk, rc: seq<nat>, f: set<nat>, name: Name11, i: nat, c: nat)
    requires Fits(g, d) && AllInVolume(g, rc) && FreeFrom(RootSlots(g, d, rc), 0) == Hit(i)
    requires c == FirstFree(FatView(g, d), 2) < g.clusters + 2
    ensures var ws := CreateStates(g, d, rc, i, name, c);
      CreateOutcome(g, d, rc, f, name, 0, ws[1], ws, if name[0] == 0xE5 then f + {c} else f)
  {
    assert f + {} == f;
  }

  lemma CreateFails(g: Geometry, d: Disk, rc: seq<nat>, f: set<nat>, name: Name11)
    requires Fits(g, d) && AllInVolume(g, rc) && !FreeFrom(RootSlots(g, d, rc), 0).Hit?
    ensures CreateOutcome(g, d, rc, f, name, -2, d, [], f)
  {
  }

  lemma CreateKeepsGood(g: Geometry, d: Disk, rc: seq<nat>, f: set<nat>, name: Name11,
                        res: int, d': Disk, writes: seq<Disk>, f2: set<nat>)
    requires Fits(g, d) && AllInVolume(g, rc) && name[0] != 0
    requires CreateOutcome(g, d, rc, f, name, res, d', writes, f2)
    ensures GoodDisk(g, d, rc, f) ==> GoodDisk(g, d', rc, f2) && Mounted(g, d', rc)
  {
    if GoodDisk(g, d, rc, f) && HasRoom(Abs(g, d, rc)) {
      var cs: Owners :| DiskInv(g, d, rc, cs, f);
      CreateDiskKeeps(g, d, rc, cs, f, name);
    }
  }

  /** The device between the two writes of a successful create holds a well-formed volume exactly under
      a name that begins with 0xE5. */
  lemma CutCreateIff(g: Geometry, d: Disk, rc: seq<nat>, f: set<nat>, name: Name11, d': Disk, writes: seq<Disk>,
                     f2: set<nat>)
    requires GoodDisk(g, d, rc, f) && name[0] != 0x00 && CreateOutcome(g, d, rc, f, name, 0, d', writes, f2)
    ensures |writes| == 2 && (GoodDisk(g, writes[0], rc, f) <==> name[0] == 0xE5)
  {
    InterruptedCreateIff(g, d, rc, f, name);
  }

  /** What the driver does to the device is a step of a run. */
  lemma OutcomesAreSteps(g: Geometry, d: Disk, rc: seq<nat>, op: Op, f: set<nat>, res: int, d': Disk,
                         writes: seq<Disk>, f2: set<nat>)
    requires Fits(g, d) && AllInVolume(g, rc) && CanDo(Abs(g, d, rc), op)
    requires match op
      case Create(name) => CreateOutcome(g, d, rc, f, name, res, d', writes, f2)
      case Delete(name) => DeleteOutcome(g, d, rc, name, res, d', writes)
    ensures d' == Do(g, d, rc, op)
  {
  }

  /** One line of a directory listing. */
  datatype Report = Report(name: seq<byte>, size: nat)

  function ReportOf(s: Slot): Report { Report(CStr(Display(NameOf(s))), SizeOf(s)) }

  function Reports(entries: seq<Slot>): (r: seq<Report>)
    ensures |r| == |entries|
    ensures forall k :: 0 <= k < |r| ==> r[k] == ReportOf(entries[k])
  {
    seq(|entries|, k requires 0 <= k < |entries| => ReportOf(entries[k]))
  }

  /** One line of the listing for this slot: its name as displayed, and its size from bytes 28 to 31. */
  ghost predicate Reported(r: Report, s: Slot) {
    && r.name == CStr(Display(s[..11]))
    && r.size == s[28] as int + 0x100 * s[29] as int + 0x1_0000 * s[30] as int + 0x100_0000 * s[31] as int
  }

  ghost predicate ListsSlots(slots: seq<Slot>, reports: seq<Report>, at: seq<nat>) {
    && |at| == |reports| && Increasing(at)
    && (forall i: nat :: i in at <==> Visible(slots, i))
    && (forall k :: 0 <= k < |at| ==> at[k] < |slots| && Reported(reports[k], slots[at[k]]))
  }

  /** The reports are those of the visible slots, in order, each once. */
  ghost predicate ListsVisible(slots: seq<Slot>, reports: seq<Report>) {
    exists at :: ListsSlots(slots, reports, at)
  }

  lemma ListingInBytes(slots: seq<Slot>)
    ensures ListsVisible(slots, Reports(EntriesFrom(slots, 0)))
  {
    var at := ListingPositions(slots);
    assert ListsSlots(slots, Reports(EntriesFrom(slots, 0)), at);
  }

  lemma ReportsConcat(a: seq<Slot>, b: seq<Slot>)
    ensures Reports(a + b) == Reports(a) + Reports(b)
  {
  }

  /** The listing of these slots has passed the first k and reported `reports`. */
  ghost predicate ListedIn(slots: seq<Slot>, k: nat, reports: seq<Report>) {
    && reports + Reports(EntriesFrom(slots, k)) == Reports(EntriesFrom(slots, 0))
    && HasEnd(slots, k) == HasEnd(slots, 0)
  }

  lemma ListedInNext(slots: seq<Slot>, k: nat, reports: seq<Report>)
    requires k < |slots| && !IsEnd(slots[k]) && ListedIn(slots, k, reports)
    ensures ListedIn(slots, k + 1, if InUse(slots[k]) then reports + [ReportOf(slots[k])] else reports)
  {
    if InUse(slots[k]) {
      var rest := EntriesFrom(slots, k + 1);
      ReportsConcat([slots[k]], rest);
      assert Reports([slots[k]]) == [ReportOf(slots[k])];
      assert reports + ([ReportOf(slots[k])] + Reports(rest)) == (reports + [ReportOf(slots[k])]) + Reports(rest);
    }
  }

  lemma ListedInEnd(slots: seq<Slot>, k: nat, reports: seq<Report>)
    requires ListedIn(slots, k, reports) && (k >= |slots| || IsEnd(slots[k]))
    ensures reports == Reports(EntriesFrom(slots, 0)) && (HasEnd(slots, 0) <==> k < |slots|)
  {
    assert reports + Reports([]) == reports;
  }

  /** One more cluster listed. */
  lemma ListStep(g: Geometry, d: Disk, rc: seq<nat>, slots: seq<Slot>, k: nat, reports: seq<Report>,
                 part: seq<Report>, ended: bool)
    requires Fits(g, d) && AllInVolume(g, rc) && slots == RootSlots(g, d, rc) && k < |rc|
    requires ListedIn(slots, RootLen(g, k), reports)
    requires part == Reports(EntriesFrom(ClusterSlots(g, d, rc[k]), 0))
    requires ended == HasEnd(ClusterSlots(g, d, rc[k]), 0)
    ensures ended ==> reports + part == Reports(EntriesFrom(slots, 0))
    ensures !ended ==> ListedIn(slots, RootLen(g, k + 1), reports + part)
  {
    var loc, base, next := ClusterSlots(g, d, rc[k]), RootLen(g, k), RootLen(g, k + 1);
    RootWindowEnd(g, d, rc, k);
    EntriesInWindow(slots, base, loc, 0, base, next);
    EndInWindow(slots, base, loc, 0, base, next);
    if !ended {
      ReportsConcat(EntriesFrom(loc, 0), EntriesFrom(slots, next));
      var rest := Reports(EntriesFrom(slots, next));
      assert reports + (part + rest) == (reports + part) + rest;
    }
  }

  // ----- on to the next cluster -----

  /** None of the first n slots stops a walk with that goal. */
  ghost predicate Unstopped(slots: seq<Slot>, goal: Goal, n: nat) {
    match goal
    case Entry(name) => Searched(slots, name, n)
    case FreeSlot => Passed(slots, n)
    case Listing => HasEnd(slots, n) == HasEnd(slots, 0)
  }

  /** A walk that completes knows how to go on as long as nothing stops it. */
  lemma WalkGoesOn(g: Geometry, d: Disk, rc: seq<nat>, goal: Goal, k: nat)
    requires Completes(g, d, rc, goal) && k < |rc|
    requires Unstopped(RootSlots(g, d, rc), goal, RootLen(g, k + 1))
    ensures AtCluster(rc, k + 1, FatGet(g, d, rc[k]))
  {
    if k + 1 == |rc| {
      var slots := RootSlots(g, d, rc);
      assert slots[0..] == slots;
      match goal
      case Entry(name) => FindMissIff(slots, name, 0);
      case FreeSlot => FreeMissIff(slots, 0);
      case Listing => HasEndIff(slots);
    }
  }

  lemma CStrOfBuffer(buf: seq<byte>, text: seq<byte>)
    requires |text| < |buf| && buf[..|text|] == text && buf[|text|] == 0
    ensures CStr(buf) == CStr(text)
  {
    var k := IndexOf(text, 0);
    assert buf[..k] == text[..k];
    if k < |text| {
      assert buf[k] == buf[..|text|][k];
    }
    IndexOfIs(buf, 0, k);
  }

  /** The bytes in `done`, and what is left to read from cluster cur on, are the whole read. */
  ghost predicate ReadSoFar(g: Geometry, d: Disk, c: nat, size: nat, cur: nat, left: nat, done: seq<byte>)
    requires Fits(g, d)
  {
    done + ReadBytes(g, d, cur, left) == ReadBytes(g, d, c, size)
  }

  /** How much of the next cluster is still wanted. */
  function Wanted(g: Geometry, left: nat): (n: nat)
    ensures n <= left && n <= g.spc * 512
  {
    if left < g.spc * 512 then left else g.spc * 512
  }

  /** A read of `left` bytes from cluster cur on meets no link that leads out of the table.  Links
      behind the last cluster it needs do not matter. */
  ghost predicate ReadInside(g: Geometry, d: Disk, cur: nat, left: nat)
    requires Fits(g, d)
    decreases left
  {
    IsLink(cur) && left > 0 ==>
      InFat(FatView(g, d), cur) && ReadInside(g, d, FatGet(g, d, cur), left - Wanted(g, left))
  }

  /** A chain without such links can be read to any size. */
  lemma {:induction false} InsideIsReadable(g: Geometry, d: Disk, cur: nat, left: nat)
    requires Fits(g, d) && StaysInside(FatView(g, d), cur)
    ensures ReadInside(g, d, cur, left)
    decreases left
  {
    if IsLink(cur) && left > 0 {
      StaysInsideNext(FatView(g, d), cur);
      InsideIsReadable(g, d, FatGet(g, d, cur), left - Wanted(g, left));
    }
  }

  /** Bytes of whole sectors needed for n bytes. */
  function RoundUp(n: nat): (r: nat)
    ensures n <= r < n + 512 && r % 512 == 0
  {
    (n + 511) / 512 * 512
  }

  /** The first `out` bytes of the buffer are read, and `left` bytes from cluster cur on are to come;
      if any, then only whole sectors were read so far. */
  ghost predicate Reading(g: Geometry, d: Disk, c: nat, size: nat, cur: nat, left: nat, buf: seq<byte>, out: nat)
    requires Fits(g, d)
  {
    && out + left == size && RoundUp(size) <= |buf| && (left > 0 ==> out % 512 == 0)
    && ReadInside(g, d, cur, left) && out <= |buf|
    && ReadSoFar(g, d, c, size, cur, left, buf[..out])
  }

  /** From n on the buffers agree. */
  ghost predicate RestSame(a: seq<byte>, b: seq<byte>, n: nat) {
    n <= |a| == |b| && a[n..] == b[n..]
  }

  lemma RestStillSame(a: seq<byte>, b: seq<byte>, c: seq<byte>, i: nat, j: nat)
    requires RestSame(a, b, i) && RestSame(b, c, j) && i <= j
    ensures RestSame(a, c, j)
  {
    assert a[j..] == a[i..][j - i..] && b[j..] == b[i..][j - i..];
  }

  /** If more is to come, whole sectors were read. */
  lemma StaysAligned(out: nat, n: nat, spc: nat)
    requires out % 512 == 0 && n == spc * 512
    ensures (out + n) % 512 == 0
  {
  }

  /** A round of the read loop appends the wanted part of the cluster. */
  lemma ReadStep(g: Geometry, d: Disk, c: nat, size: nat, cur: nat, left: nat, buf: seq<byte>, out: nat,
                 buf2: seq<byte>)
    requires Fits(g, d) && IsLink(cur) && left > 0 && Reading(g, d, c, size, cur, left, buf, out)
    requires InFat(FatView(g, d), cur) && |buf2| == |buf| && out + Wanted(g, left) <= |buf|
    requires buf2[..out + Wanted(g, left)] == buf[..out] + ClusterBytes(g, d, cur)[..Wanted(g, left)]
    ensures Reading(g, d, c, size, FatGet(g, d, cur), left - Wanted(g, left), buf2, out + Wanted(g, left))
  {
    ReadMore(g, d, c, size, cur, left, buf[..out]);
    if left > Wanted(g, left) {
      StaysAligned(out, Wanted(g, left), g.spc);
    }
  }

  lemma ReadMore(g: Geometry, d: Disk, c: nat, size: nat, cur: nat, left: nat, done: seq<byte>)
    requires Fits(g, d) && InFat(FatView(g, d), cur) && left > 0
    requires ReadSoFar(g, d, c, size, cur, left, done)
    ensures var n := Wanted(g, left);
      ReadSoFar(g, d, c, size, FatGet(g, d, cur), left - n, done + ClusterBytes(g, d, cur)[..n])
  {
    var bs := ClusterBytes(g, d, cur);
    if left >= g.spc * 512 {
      var rest := ReadBytes(g, d, FatGet(g, d, cur), left - g.spc * 512);
      assert bs[..|bs|] == bs;
      assert done + (bs + rest) == (done + bs) + rest;
    } else {
      assert (done + bs[..left]) + [] == done + bs[..left];
    }
  }

  lemma ReadDone(g: Geometry, d: Disk, c: nat, size: nat, cur: nat, left: nat, buf: seq<byte>, out: nat)
    requires Fits(g, d) && Reading(g, d, c, size, cur, left, buf, out) && (!IsLink(cur) || left == 0)
    ensures buf[..out] == ReadBytes(g, d, c, size)
  {
    assert buf[..out] + [] == buf[..out];
  }

  lemma RoundUpBehind(out: nat, n: nat)
    requires out % 512 == 0
    ensures RoundUp(out + n) == out + RoundUp(n)
  {
    assert out == 512 * (out / 512);
    assert (out + n + 511) / 512 == out / 512 + (n + 511) / 512;
  }

  lemma RoundUpMonotone(m: nat, n: nat)
    requires m <= n
    ensures RoundUp(m) <= RoundUp(n)
  {
  }

  lemma SpanPrefix(d: Disk, lba: nat, m: nat, n: nat, k: nat)
    requires m <= n && lba + n <= |d| && k <= 512 * m
    ensures Span(d, lba, m)[..k] == Span(d, lba, n)[..k]
  {
  }

  /** Sectors to read for the next n bytes behind offset `out`, where at most `left` are wanted. */
  lemma ReadPlan(out: nat, left: nat, n: nat, spc: nat)
    requires out % 512 == 0 && n <= left && n <= spc * 512
    ensures var secs := (n + 512 - 1) / 512;
      && secs <= spc && n <= secs * 512 && out + secs * 512 == RoundUp(out + n) <= RoundUp(out + left)
  {
    RoundUpBehind(out, n);
    RoundUpMonotone(out + n, out + left);
  }
}
