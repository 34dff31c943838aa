/** The medium byte by byte: the root directory and files as runs of bytes, and what create and delete
    change of the directory's bytes and of the bytes of the first FAT. */
module MediumBytes {
  import opened Bytes
  import opened Strides
  import opened FatTable
  import opened Chains
  import opened Directory
  import opened Names
  import opened Volumes
  import opened DiskImage
  import opened DiskOps
  import opened FileContents
  import opened DriverSteps

  // ----- runs of bytes -----

  /** Byte i of the k-th cluster of a chain. */
  lemma {:induction false} ChainByteAt(g: Geometry, d: Disk, ch: seq<nat>, k: nat, i: nat)
    requires Fits(g, d) && AllInVolume(g, ch) && k < |ch| && i < g.spc * 512
    ensures Stride(g.spc * 512, k) + i < |ChainBytes(g, d, ch)|
    ensures ChainBytes(g, d, ch)[Stride(g.spc * 512, k) + i] == ClusterBytes(g, d, ch[k])[i]
    decreases k
  {
    if k > 0 {
      ChainByteAt(g, d, ch[1..], k - 1, i);
    }
  }

  lemma {:induction false} ChainLength(g: Geometry, d: Disk, ch: seq<nat>)
    requires Fits(g, d) && AllInVolume(g, ch)
    ensures |ChainBytes(g, d, ch)| == 32 * RootLen(g, |ch|)
  {
    if ch != [] {
      ChainLength(g, d, ch[1..]);
    }
  }

  lemma {:induction false} RootSlotByte(g: Geometry, d: Disk, rc: seq<nat>, i: nat, b: nat)
    requires Fits(g, d) && AllInVolume(g, rc) && i < RootLen(g, |rc|) && b < 32
    requires |ChainBytes(g, d, rc)| == 32 * RootLen(g, |rc|)
    ensures RootSlots(g, d, rc)[i][b] == ChainBytes(g, d, rc)[32 * i + b]
    decreases |rc|
  {
    if i < 16 * g.spc {
      ClusterSlotBytes(g, d, rc[0], i);
      var bs := ClusterBytes(g, d, rc[0]);
      assert bs[32 * i..32 * i + 32][b] == bs[32 * i + b];
    } else {
      RootSlotByte(g, d, rc[1..], i - 16 * g.spc, b);
    }
  }

  /** Slot i of the root directory is the 32 bytes from 32 * i on of its chain. */
  lemma RootSlotBytes(g: Geometry, d: Disk, rc: seq<nat>, i: nat)
    requires Fits(g, d) && AllInVolume(g, rc) && i < RootLen(g, |rc|)
    ensures 32 * i + 32 <= |ChainBytes(g, d, rc)|
    ensures RootSlots(g, d, rc)[i] == ChainBytes(g, d, rc)[32 * i..32 * i + 32]
  {
    ChainLength(g, d, rc);
    var slot, dir := RootSlots(g, d, rc)[i], ChainBytes(g, d, rc);
    forall b | 0 <= b < 32 ensures slot[b] == dir[32 * i..32 * i + 32][b] {
      RootSlotByte(g, d, rc, i, b);
    }
  }

  lemma DirectoryByte(g: Geometry, d: Disk, rc: seq<nat>, x: nat)
    requires Fits(g, d) && AllInVolume(g, rc) && x < 32 * RootLen(g, |rc|)
    ensures x < |ChainBytes(g, d, rc)| && ChainBytes(g, d, rc)[x] == RootSlots(g, d, rc)[x / 32][x % 32]
  {
    ChainLength(g, d, rc);
    RootSlotByte(g, d, rc, x / 32, x % 32);
  }

  /** One slot changed is 32 bytes of the directory changed. */
  lemma SlotChangeInBytes(g: Geometry, d: Disk, d': Disk, rc: seq<nat>, i: nat, e: Slot)
    requires Fits(g, d) && Fits(g, d') && AllInVolume(g, rc) && i < RootLen(g, |rc|)
    requires RootSlots(g, d', rc) == RootSlots(g, d, rc)[i := e]
    ensures 32 * i + 32 <= |ChainBytes(g, d, rc)|
    ensures ChainBytes(g, d', rc) == Patched(ChainBytes(g, d, rc), 32 * i, e)
  {
    ChainLength(g, d, rc);
    ChainLength(g, d', rc);
    var a, b := ChainBytes(g, d, rc), ChainBytes(g, d', rc);
    forall x | 0 <= x < |a| ensures b[x] == Patched(a, 32 * i, e)[x] {
      DirectoryByte(g, d, rc, x);
      DirectoryByte(g, d', rc, x);
    }
  }

  /** The same slots are the same bytes. */
  lemma SameSlotsSameBytes(g: Geometry, d: Disk, d': Disk, rc: seq<nat>)
    requires Fits(g, d) && Fits(g, d') && AllInVolume(g, rc)
    requires RootSlots(g, d', rc) == RootSlots(g, d, rc)
    ensures ChainBytes(g, d', rc) == ChainBytes(g, d, rc)
  {
    ChainLength(g, d, rc);
    ChainLength(g, d', rc);
    var a, b := ChainBytes(g, d, rc), ChainBytes(g, d', rc);
    forall x | 0 <= x < |a| ensures b[x] == a[x] {
      DirectoryByte(g, d, rc, x);
      DirectoryByte(g, d', rc, x);
    }
  }

  lemma {:induction false} WriteRootKeepsFront(g: Geometry, d: Disk, rc: seq<nat>, i: nat, e: Slot)
    requires Fits(g, d) && AllInVolume(g, rc) && i < RootLen(g, |rc|)
    ensures WriteRoot(g, d, rc, i, e)[..g.dataStart] == d[..g.dataStart]
    decreases |rc|
  {
    if i < 16 * g.spc {
      LbaInRange(g, rc[0]);
    } else {
      WriteRootKeepsFront(g, d, rc[1..], i - 16 * g.spc, e);
    }
  }

  /** A slot write leaves the bytes of the FAT alone. */
  lemma WriteRootKeepsSpan(g: Geometry, d: Disk, rc: seq<nat>, i: nat, e: Slot)
    requires Fits(g, d) && AllInVolume(g, rc) && i < RootLen(g, |rc|)
    ensures g.reserved + g.fatSize <= |d|
    ensures Span(WriteRoot(g, d, rc, i, e), g.reserved, g.fatSize) == Span(d, g.reserved, g.fatSize)
  {
    var d' := WriteRoot(g, d, rc, i, e);
    WriteRootKeepsFront(g, d, rc, i, e);
    forall x | 0 <= x < g.fatSize * 512
      ensures Span(d', g.reserved, g.fatSize)[x] == Span(d, g.reserved, g.fatSize)[x]
    {
      assert d'[g.reserved + x / 512] == d'[..g.dataStart][g.reserved + x / 512];
    }
  }

  // ----- create -----

  /** The directory on d2 is that on d with slot i overwritten by e, and the FAT is the same. */
  ghost predicate SlotWritten(g: Geometry, d: Disk, rc: seq<nat>, i: nat, e: Slot, d2: Disk) {
    && Fits(g, d) && Fits(g, d2) && AllInVolume(g, rc) && g.reserved + g.fatSize <= |d| == |d2|
    && 32 * i + 32 <= |ChainBytes(g, d, rc)|
    && ChainBytes(g, d2, rc) == Patched(ChainBytes(g, d, rc), 32 * i, e)
    && Span(d2, g.reserved, g.fatSize) == Span(d, g.reserved, g.fatSize)
  }

  /** The directory on d2 is that on d, and in the first FAT the entry of c became FF FF FF 0F. */
  ghost predicate EndMarked(g: Geometry, d: Disk, rc: seq<nat>, c: nat, d2: Disk) {
    && Fits(g, d) && Fits(g, d2) && AllInVolume(g, rc) && g.reserved + g.fatSize <= |d| == |d2|
    && 4 * c + 4 <= g.fatSize * 512
    && ChainBytes(g, d2, rc) == ChainBytes(g, d, rc)
    && Span(d2, g.reserved, g.fatSize) ==
         Span(d, g.reserved, g.fatSize)[4 * c := 0xFF][4 * c + 1 := 0xFF][4 * c + 2 := 0xFF][4 * c + 3 := 0x0F]
  }

  lemma WriteRootInBytes(g: Geometry, d: Disk, rc: seq<nat>, i: nat, e: Slot)
    requires Mounted(g, d, rc) && i < RootLen(g, |rc|)
    ensures SlotWritten(g, d, rc, i, e, WriteRoot(g, d, rc, i, e))
  {
    WriteRootRefines(g, d, rc, i, e);
    SlotChangeInBytes(g, d, WriteRoot(g, d, rc, i, e), rc, i, e);
    WriteRootKeepsSpan(g, d, rc, i, e);
  }

  lemma MarkInBytes(g: Geometry, d: Disk, rc: seq<nat>, c: nat)
    requires Fits(g, d) && AllInVolume(g, rc) && c < g.clusters + 2
    ensures EndMarked(g, d, rc, c, FatSet(g, d, c, 0x0FFF_FFFF))
  {
    var d2 := FatSet(g, d, c, 0x0FFF_FFFF);
    FatSetBytes(g, d, c, 0x0FFF_FFFF);
    FatSetKeepsData(g, d, c, 0x0FFF_FFFF);
    DataFrame(g, d, d2, rc);
    SameSlotsSameBytes(g, d, d2, rc);
  }

  /** The two states that a successful create leaves behind, one after the other: the new entry in the
      first free slot, then the end mark for its cluster, the least free one. */
  lemma CreateInBytes(g: Geometry, d: Disk, rc: seq<nat>, f: set<nat>, name: Name11,
                      d': Disk, writes: seq<Disk>, f2: set<nat>)
    requires Mounted(g, d, rc) && CreateOutcome(g, d, rc, f, name, 0, d', writes, f2)
    ensures |writes| == 2 && d' == writes[1]
    ensures var i, c := FreeFrom(RootSlots(g, d, rc), 0).at, FirstFree(FatView(g, d), 2);
      SlotWritten(g, d, rc, i, NewSlot(name, c), writes[0]) && EndMarked(g, writes[0], rc, c, d')
  {
    var i, c := FreeFrom(RootSlots(g, d, rc), 0).at, FirstFree(FatView(g, d), 2);
    WriteRootInBytes(g, d, rc, i, NewSlot(name, c));
    MarkInBytes(g, WriteRoot(g, d, rc, i, NewSlot(name, c)), rc, c);
  }

  /** A file created under one spelling of a fresh name is found under every other. */
  lemma FoundUnderEverySpelling(g: Geometry, d: Disk, rc: seq<nat>, a: seq<byte>, b: seq<byte>)
    requires Mounted(g, d, rc) && HasRoom(Abs(g, d, rc)) && EndClean(RootSlots(g, d, rc))
    requires SameButCase(a, b) && ShortName(a)[0] != 0x00 && ShortName(a)[0] != 0xE5
    requires !FindFrom(RootSlots(g, d, rc), ShortName(a), 0).Hit?
    ensures FindFrom(RootSlots(g, CreateDisk(g, d, rc, ShortName(a)), rc), ShortName(b), 0)
         == Hit(FreeFrom(RootSlots(g, d, rc), 0).at)
  {
    CaseInsensitive(a, b);
    CreateRefines(g, d, rc, ShortName(a));
    FindCreated(Abs(g, d, rc), ShortName(a));
  }

  // ----- delete -----

  /** The states that a delete of slot i leaves behind, whose chain is `ch`: in all of them byte 0 of the
      slot is 0xE5 and no other byte of the directory changed, and after the j-th of them the entries of
      the first j clusters are zero and no others changed. */
  lemma DeleteInBytes(g: Geometry, d: Disk, rc: seq<nat>, i: nat, ch: seq<nat>, d': Disk, writes: seq<Disk>, j: nat)
    requires Mounted(g, d, rc) && Deleted(g, d, rc, i, d', writes)
    requires IsChain(FatView(g, d), ClusterOf(RootSlots(g, d, rc)[i]), ch) && j <= |ch|
    ensures |writes| == |ch| + 1 && d' == writes[|ch|] && Fits(g, writes[j])
    ensures 32 * i < |ChainBytes(g, d, rc)|
    ensures ChainBytes(g, writes[j], rc) == ChainBytes(g, d, rc)[32 * i := 0xE5]
    ensures forall x :: 0 <= x < g.clusters + 2 ==>
      FatGet(g, writes[j], x) == if x in ch[..j] then 0 else FatGet(g, d, x)
  {
    var e := Erased(RootSlots(g, d, rc)[i]);
    RemoveStatesCount(g, d, rc, i, ch);
    RemoveStatesRefine(g, d, rc, i, ch, j);
    var v, v' := Abs(g, d, rc), Abs(g, writes[j], rc);
    assert v'.fat == Cleared(v.fat, ch[..j]) && v'.slots == v.slots[i := e];
    SlotChangeInBytes(g, d, writes[j], rc, i, e);
    RootSlotBytes(g, d, rc, i);
    ErasedInBytes(ChainBytes(g, d, rc), 32 * i);
    forall x | 0 <= x < g.clusters + 2
      ensures FatGet(g, writes[j], x) == if x in ch[..j] then 0 else FatGet(g, d, x)
    {
      assert v'.fat[x] == FatGet(g, writes[j], x) && v.fat[x] == FatGet(g, d, x);
    }
  }

  lemma ErasedInBytes(dir: seq<byte>, o: nat)
    requires o + 32 <= |dir|
    ensures Patched(dir, o, Erased(dir[o..o + 32])) == dir[o := 0xE5]
  {
  }
}
