/** Create, delete and read as functions on the disk; what every run of them keeps. */
module DiskOps {
  import opened Bytes
  import opened FatTable
  import opened Chains
  import opened Directory
  import opened Volumes
  import opened DiskImage

  /** `rc` is the chain of the root directory on disk d. */
  ghost predicate Mounted(g: Geometry, d: Disk, rc: seq<nat>) {
    Fits(g, d) && AllInVolume(g, rc) && IsChain(FatView(g, d), g.rootCluster, rc)
  }

  /** The volume that the sectors represent. */
  function Abs(g: Geometry, d: Disk, rc: seq<nat>): (v: Volume)
    requires Fits(g, d) && AllInVolume(g, rc)
    ensures |v.fat| == g.clusters + 2 <= 0x0FFF_FFF0
    ensures |v.slots| == RootLen(g, |rc|)
  {
    Volume(FatView(g, d), RootSlots(g, d, rc))
  }

  lemma MountedDistinct(g: Geometry, d: Disk, rc: seq<nat>)
    requires Mounted(g, d, rc)
    ensures Distinct(rc)
  {
    forall i, j | 0 <= i < j < |rc| ensures rc[i] != rc[j] {
      ChainAcyclic(FatView(g, d), rc, i, j);
    }
  }

  // ----- operations -----

  function CreateDisk(g: Geometry, d: Disk, rc: seq<nat>, name: Name11): (r: Disk)
    requires Fits(g, d) && AllInVolume(g, rc) && HasRoom(Abs(g, d, rc))
    ensures |r| == |d| && Fits(g, r)
  {
    var v := Abs(g, d, rc);
    var i, c := FreeFrom(v.slots, 0).at, FirstFree(v.fat, 2);
    FatSet(g, WriteRoot(g, d, rc, i, NewSlot(name, c)), c, 0x0FFF_FFFF)
  }

  function EraseDisk(g: Geometry, d: Disk, rc: seq<nat>, i: nat): (r: Disk)
    requires Fits(g, d) && AllInVolume(g, rc) && i < RootLen(g, |rc|)
    ensures |r| == |d| && Fits(g, r)
  {
    WriteRoot(g, d, rc, i, Erased(RootSlots(g, d, rc)[i]))
  }

  /** The disks after each of the writes of deleting slot i: the slot first, then the table. */
  function RemoveStates(g: Geometry, d: Disk, rc: seq<nat>, i: nat): (r: seq<Disk>)
    requires Fits(g, d) && AllInVolume(g, rc) && i < RootLen(g, |rc|)
    ensures r != []
  {
    var d1 := EraseDisk(g, d, rc, i);
    [d1] + ReleaseStates(g, d1, ClusterOf(RootSlots(g, d, rc)[i]))
  }

  function RemoveDisk(g: Geometry, d: Disk, rc: seq<nat>, i: nat): (r: Disk)
    requires Fits(g, d) && AllInVolume(g, rc) && i < RootLen(g, |rc|)
    ensures Fits(g, r)
  {
    var ss := RemoveStates(g, d, rc, i);
    ReleaseRefines(g, EraseDisk(g, d, rc, i), ClusterOf(RootSlots(g, d, rc)[i]));
    ss[|ss| - 1]
  }

  // ----- refinement -----

  lemma WriteRootRefines(g: Geometry, d: Disk, rc: seq<nat>, i: nat, e: Slot)
    requires Mounted(g, d, rc) && i < RootLen(g, |rc|)
    ensures var d' := WriteRoot(g, d, rc, i, e);
      Mounted(g, d', rc) && Abs(g, d', rc) == Volume(Abs(g, d, rc).fat, Abs(g, d, rc).slots[i := e])
  {
    MountedDistinct(g, d, rc);
    WriteRootKeepsFat(g, d, rc, i, e);
    WriteRootSlots(g, d, rc, i, e);
  }

  /** The two sector writes of create amount to one insertion into the list and one allocation. */
  lemma CreateRefines(g: Geometry, d: Disk, rc: seq<nat>, name: Name11)
    requires Mounted(g, d, rc) && HasRoom(Abs(g, d, rc))
    ensures Abs(g, CreateDisk(g, d, rc, name), rc) == Created(Abs(g, d, rc), name)
    ensures Mounted(g, CreateDisk(g, d, rc, name), rc) || FirstFree(FatView(g, d), 2) in rc
  {
    var v := Abs(g, d, rc);
    var i, c := FreeFrom(v.slots, 0).at, FirstFree(v.fat, 2);
    var d1 := WriteRoot(g, d, rc, i, NewSlot(name, c));
    WriteRootRefines(g, d, rc, i, NewSlot(name, c));
    FatViewSet(g, d1, c, 0x0FFF_FFFF);
    FatSetKeepsData(g, d1, c, 0x0FFF_FFFF);
    DataFrame(g, d1, FatSet(g, d1, c, 0x0FFF_FFFF), rc);
    if c !in rc {
      LinkedFrame(v.fat, v.fat[c := 0x0FFF_FFFF], rc);
    }
  }

  lemma RemoveRefines(g: Geometry, d: Disk, rc: seq<nat>, i: nat)
    requires Mounted(g, d, rc) && i < RootLen(g, |rc|)
    ensures Fits(g, RemoveDisk(g, d, rc, i))
    ensures Abs(g, RemoveDisk(g, d, rc, i), rc) == Removed(Abs(g, d, rc), i)
  {
    var v := Abs(g, d, rc);
    var d1, c := EraseDisk(g, d, rc, i), ClusterOf(v.slots[i]);
    WriteRootRefines(g, d, rc, i, Erased(v.slots[i]));
    ReleaseRefines(g, d1, c);
    assert RemoveDisk(g, d, rc, i) == ReleaseDisk(g, d1, c);
    DataFrame(g, d1, RemoveDisk(g, d, rc, i), rc);
  }

  /** Creating a file under a fresh name and deleting it again, on the disk: the table and the
      listing are what they were, and the next create takes the same slot and the same cluster. */
  lemma CreateThenDelete(g: Geometry, d: Disk, rc: seq<nat>, name: Name11)
    requires Mounted(g, d, rc) && HasRoom(Abs(g, d, rc)) && EndClean(RootSlots(g, d, rc))
    requires FirstFree(FatView(g, d), 2) !in rc
    requires name[0] != 0x00 && name[0] != 0xE5 && !FindFrom(RootSlots(g, d, rc), name, 0).Hit?
    ensures var d1 := CreateDisk(g, d, rc, name);
      && FindFrom(RootSlots(g, d1, rc), name, 0).Hit?
      && var d2 := RemoveDisk(g, d1, rc, FindFrom(RootSlots(g, d1, rc), name, 0).at);
         && FatView(g, d2) == FatView(g, d)
         && EntriesFrom(RootSlots(g, d2, rc), 0) == EntriesFrom(RootSlots(g, d, rc), 0)
         && FreeFrom(RootSlots(g, d2, rc), 0) == FreeFrom(RootSlots(g, d, rc), 0)
  {
    CreateRefines(g, d, rc, name);
    CreateThenRemove(Abs(g, d, rc), name);
    var d1 := CreateDisk(g, d, rc, name);
    RemoveRefines(g, d1, rc, FindFrom(RootSlots(g, d1, rc), name, 0).at);
  }

  // ----- well-formed disks -----

  ghost predicate DiskInv(g: Geometry, d: Disk, rc: seq<nat>, cs: Owners, foreign: set<nat>) {
    Mounted(g, d, rc) && Inv(Abs(g, d, rc), g.rootCluster, cs, foreign)
  }

  ghost predicate GoodDisk(g: Geometry, d: Disk, rc: seq<nat>, foreign: set<nat>) {
    exists cs: Owners :: DiskInv(g, d, rc, cs, foreign)
  }

  /** A freshly formatted volume: a blank root directory of one cluster, and nothing else allocated. */
  ghost predicate Formatted(g: Geometry, d: Disk) {
    && Fits(g, d) && InVolume(g, g.rootCluster)
    && FatView(g, d)[g.rootCluster] >= 0x0FFF_FFF8
    && (forall x :: 2 <= x < g.clusters + 2 && x != g.rootCluster ==> FatView(g, d)[x] == 0)
    && (forall s :: 0 <= s < 16 * g.spc ==> IsEnd(ClusterSlots(g, d, g.rootCluster)[s]))
  }

  /** It is where runs may begin: well-formed, and empty. */
  lemma FormattedIsGood(g: Geometry, d: Disk)
    requires Formatted(g, d)
    ensures GoodDisk(g, d, [g.rootCluster], {}) && EntriesFrom(RootSlots(g, d, [g.rootCluster]), 0) == []
  {
    var root := g.rootCluster;
    var slots := RootSlots(g, d, [root]);
    assert slots == ClusterSlots(g, d, root);
    var cs: Owners := seq(|slots|, _ => []) + [[root]];
    assert root in cs[|slots|];
    assert DiskInv(g, d, [root], cs, {});
  }

  lemma RootOwned(g: Geometry, d: Disk, rc: seq<nat>, cs: Owners, foreign: set<nat>)
    requires DiskInv(g, d, rc, cs, foreign)
    ensures |cs| == RootLen(g, |rc|) + 1 && cs[RootLen(g, |rc|)] == rc
    ensures forall x :: x in rc ==> Owns(cs, x)
  {
    var v := Abs(g, d, rc);
    ChainUnique(v.fat, g.rootCluster, rc, cs[|v.slots|]);
  }

  /** Well-formedness only speaks about the abstract volume; the root chain is part of it. */
  lemma InvMounts(g: Geometry, d: Disk, rc: seq<nat>, cs: Owners, foreign: set<nat>)
    requires Fits(g, d) && AllInVolume(g, rc) && Inv(Abs(g, d, rc), g.rootCluster, cs, foreign)
    requires cs[RootLen(g, |rc|)] == rc
    ensures DiskInv(g, d, rc, cs, foreign)
  {
  }

  /** What a user of the driver may do to the volume; names as they are stored. */
  datatype Op = Create(name: Name11) | Delete(name: Name11)

  /** What an operation allocates without an owner: the cluster of a create that succeeds under a
      name whose first byte is 0xE5. */
  function Leak(v: Volume, op: Op): set<nat> {
    if op.Create? && HasRoom(v) && op.name[0] == 0xE5 then {FirstFree(v.fat, 2)} else {}
  }

  /** The chains after a create. */
  ghost function CreateOwners(v: Volume, cs: Owners, name: Name11): Owners
    requires HasRoom(v) && |cs| == |v.slots| + 1
  {
    if name[0] == 0xE5 then cs else cs[FreeFrom(v.slots, 0).at := [FirstFree(v.fat, 2)]]
  }

  lemma CreateDiskKeeps(g: Geometry, d: Disk, rc: seq<nat>, cs: Owners, foreign: set<nat>, name: Name11)
    requires DiskInv(g, d, rc, cs, foreign) && HasRoom(Abs(g, d, rc)) && name[0] != 0x00
    ensures var v := Abs(g, d, rc);
      DiskInv(g, CreateDisk(g, d, rc, name), rc, CreateOwners(v, cs, name), foreign + Leak(v, Create(name)))
  {
    var v := Abs(g, d, rc);
    RootOwned(g, d, rc, cs, foreign);
    CreateRefines(g, d, rc, name);
    if name[0] == 0xE5 {
      CreateLeaks(v, g.rootCluster, cs, foreign, name);
    } else {
      CreateKeepsInv(v, g.rootCluster, cs, foreign, name);
      assert foreign + Leak(v, Create(name)) == foreign;
    }
    InvMounts(g, CreateDisk(g, d, rc, name), rc, CreateOwners(v, cs, name), foreign + Leak(v, Create(name)));
  }

  /** On the disk: cut off between its two writes, a create leaves a well-formed disk exactly under a
      name that begins with 0xE5. */
  lemma InterruptedCreateIff(g: Geometry, d: Disk, rc: seq<nat>, foreign: set<nat>, name: Name11)
    requires GoodDisk(g, d, rc, foreign) && HasRoom(Abs(g, d, rc)) && name[0] != 0x00
    ensures var i, c := FreeFrom(RootSlots(g, d, rc), 0).at, FirstFree(FatView(g, d), 2);
      GoodDisk(g, WriteRoot(g, d, rc, i, NewSlot(name, c)), rc, foreign) <==> name[0] == 0xE5
  {
    var v := Abs(g, d, rc);
    var i, c := FreeFrom(v.slots, 0).at, FirstFree(v.fat, 2);
    WriteRootRefines(g, d, rc, i, NewSlot(name, c));
    GoodIsWellFormed(g, d, rc, foreign);
    GoodIsWellFormed(g, WriteRoot(g, d, rc, i, NewSlot(name, c)), rc, foreign);
    HalfCreatedWellFormedIff(v, g.rootCluster, foreign, name);
  }

  lemma GoodIsWellFormed(g: Geometry, d: Disk, rc: seq<nat>, foreign: set<nat>)
    requires Mounted(g, d, rc)
    ensures GoodDisk(g, d, rc, foreign) <==> WellFormed(Abs(g, d, rc), g.rootCluster, foreign)
  {
    if WellFormed(Abs(g, d, rc), g.rootCluster, foreign) {
      var cs: Owners :| Inv(Abs(g, d, rc), g.rootCluster, cs, foreign);
      assert DiskInv(g, d, rc, cs, foreign);
    }
  }

  // ----- interrupted delete -----

  /** Erasing a slot does not change the table. */
  lemma EraseKeepsFat(g: Geometry, d: Disk, rc: seq<nat>, i: nat)
    requires Fits(g, d) && AllInVolume(g, rc) && i < RootLen(g, |rc|)
    ensures FatView(g, EraseDisk(g, d, rc, i)) == FatView(g, d)
  {
    WriteRootKeepsFat(g, d, rc, i, Erased(RootSlots(g, d, rc)[i]));
  }

  lemma RemoveStatesCount(g: Geometry, d: Disk, rc: seq<nat>, i: nat, ch: seq<nat>)
    requires Fits(g, d) && AllInVolume(g, rc) && i < RootLen(g, |rc|)
    requires IsChain(FatView(g, d), ClusterOf(RootSlots(g, d, rc)[i]), ch)
    ensures |RemoveStates(g, d, rc, i)| == |ch| + 1
  {
    EraseKeepsFat(g, d, rc, i);
    ReleaseStatesCount(g, EraseDisk(g, d, rc, i), ClusterOf(RootSlots(g, d, rc)[i]), ch);
  }

  /** The j-th state has the first j clusters of the chain cleared, and the data area of the erased
      directory. */
  lemma RemoveStatesCleared(g: Geometry, d: Disk, rc: seq<nat>, i: nat, ch: seq<nat>, j: nat)
    requires Fits(g, d) && AllInVolume(g, rc) && i < RootLen(g, |rc|)
    requires IsChain(FatView(g, d), ClusterOf(RootSlots(g, d, rc)[i]), ch) && j <= |ch|
    ensures j < |RemoveStates(g, d, rc, i)|
    ensures ClearedOn(g, EraseDisk(g, d, rc, i), ch[..j], RemoveStates(g, d, rc, i)[j])
  {
    RemoveStatesCount(g, d, rc, i, ch);
    EraseKeepsFat(g, d, rc, i);
    ReleasedSoFar(g, EraseDisk(g, d, rc, i), ClusterOf(RootSlots(g, d, rc)[i]), ch, j);
  }

  lemma ReleasedSoFar(g: Geometry, d: Disk, c: nat, ch: seq<nat>, j: nat)
    requires Fits(g, d) && IsChain(FatView(g, d), c, ch) && j <= |ch| == |ReleaseStates(g, d, c)|
    ensures ClearedOn(g, d, ch[..j], ([d] + ReleaseStates(g, d, c))[j])
  {
    if j == 0 {
      assert Cleared(FatView(g, d), ch[..0]) == FatView(g, d);
    } else {
      ReleaseStatesOfChain(g, d, c, ch, j - 1);
    }
  }

  /** The j-th state of a delete on the disk is the j-th partial removal on the volume. */
  lemma RemoveStatesRefine(g: Geometry, d: Disk, rc: seq<nat>, i: nat, ch: seq<nat>, j: nat)
    requires Mounted(g, d, rc) && i < RootLen(g, |rc|)
    requires IsChain(FatView(g, d), ClusterOf(RootSlots(g, d, rc)[i]), ch) && j <= |ch|
    ensures j < |RemoveStates(g, d, rc, i)|
    ensures var r := RemoveStates(g, d, rc, i)[j];
      Fits(g, r) && Abs(g, r, rc) == PartlyRemoved(Abs(g, d, rc), i, ch, j)
  {
    RemoveStatesCleared(g, d, rc, i, ch, j);
    WriteRootRefines(g, d, rc, i, Erased(RootSlots(g, d, rc)[i]));
    DataFrame(g, EraseDisk(g, d, rc, i), RemoveStates(g, d, rc, i)[j], rc);
  }

  /** A delete may be cut off after any of its sector writes.  The disk is then well-formed but for
      the part of the removed chain that was not yet released, and the last state leaves nothing. */
  lemma InterruptedDeleteIsSafe(g: Geometry, d: Disk, rc: seq<nat>, cs: Owners, foreign: set<nat>, i: nat, j: nat)
    requires DiskInv(g, d, rc, cs, foreign) && Live(RootSlots(g, d, rc), i)
    requires j < |RemoveStates(g, d, rc, i)|
    ensures |RemoveStates(g, d, rc, i)| == |cs[i]| + 1
    ensures DiskInv(g, RemoveStates(g, d, rc, i)[j], rc, cs[i := []], foreign + Elements(cs[i][j..]))
  {
    var v := Abs(g, d, rc);
    RootOwned(g, d, rc, cs, foreign);
    assert SlotChain(v.fat, v.slots[i], cs[i]);
    RemoveStatesCount(g, d, rc, i, cs[i]);
    RemoveStatesRefine(g, d, rc, i, cs[i], j);
    RemoveKeepsInv(v, g.rootCluster, cs, foreign, i, j);
    InvMounts(g, RemoveStates(g, d, rc, i)[j], rc, cs[i := []], foreign + Elements(cs[i][j..]));
  }

  lemma RemoveDiskKeeps(g: Geometry, d: Disk, rc: seq<nat>, cs: Owners, foreign: set<nat>, i: nat)
    requires DiskInv(g, d, rc, cs, foreign) && Live(RootSlots(g, d, rc), i)
    ensures DiskInv(g, RemoveDisk(g, d, rc, i), rc, cs[i := []], foreign)
  {
    RootOwned(g, d, rc, cs, foreign);
    RemoveRefines(g, d, rc, i);
    RemoveKeepsWellFormed(Abs(g, d, rc), g.rootCluster, cs, foreign, i);
    InvMounts(g, RemoveDisk(g, d, rc, i), rc, cs[i := []], foreign);
  }

  // ----- single operations -----

  /** Stored names never begin with a zero byte. */
  predicate CanDo(v: Volume, op: Op) {
    op.name[0] != 0x00 && (op.Create? ==> RoomIfSlot(v))
  }

  function Do(g: Geometry, d: Disk, rc: seq<nat>, op: Op): (r: Disk)
    requires Fits(g, d) && AllInVolume(g, rc) && CanDo(Abs(g, d, rc), op)
    ensures Fits(g, r)
  {
    match op
    case Create(name) => if HasRoom(Abs(g, d, rc)) then CreateDisk(g, d, rc, name) else d
    case Delete(name) =>
      var r := FindFrom(RootSlots(g, d, rc), name, 0);
      if r.Hit? then RemoveDisk(g, d, rc, r.at) else d
  }

  lemma CreateStepKeeps(g: Geometry, d: Disk, rc: seq<nat>, foreign: set<nat>, op: Op)
    requires GoodDisk(g, d, rc, foreign) && CanDo(Abs(g, d, rc), op) && op.Create? && HasRoom(Abs(g, d, rc))
    ensures GoodDisk(g, Do(g, d, rc, op), rc, foreign + Leak(Abs(g, d, rc), op))
    ensures foreign !! Leak(Abs(g, d, rc), op)
  {
    var cs: Owners :| DiskInv(g, d, rc, cs, foreign);
    CreateDiskKeeps(g, d, rc, cs, foreign, op.name);
    FreeClusterUnowned(Abs(g, d, rc), g.rootCluster, cs, foreign);
  }

  lemma DeleteStepKeeps(g: Geometry, d: Disk, rc: seq<nat>, foreign: set<nat>, op: Op)
    requires GoodDisk(g, d, rc, foreign) && CanDo(Abs(g, d, rc), op) && op.Delete?
    ensures GoodDisk(g, Do(g, d, rc, op), rc, foreign)
  {
    var cs: Owners :| DiskInv(g, d, rc, cs, foreign);
    var slots := RootSlots(g, d, rc);
    var r := FindFrom(slots, op.name, 0);
    if r.Hit? {
      FindIsFirstLive(slots, op.name, 0, r.at);
      RemoveDiskKeeps(g, d, rc, cs, foreign, r.at);
    }
  }

  /** Every operation keeps a disk well-formed, up to the cluster it leaks. */
  lemma StepKeeps(g: Geometry, d: Disk, rc: seq<nat>, foreign: set<nat>, op: Op)
    requires GoodDisk(g, d, rc, foreign) && CanDo(Abs(g, d, rc), op)
    ensures GoodDisk(g, Do(g, d, rc, op), rc, foreign + Leak(Abs(g, d, rc), op))
    ensures foreign !! Leak(Abs(g, d, rc), op)
  {
    if op.Create? && HasRoom(Abs(g, d, rc)) {
      CreateStepKeeps(g, d, rc, foreign, op);
    } else {
      assert foreign + Leak(Abs(g, d, rc), op) == foreign;
      if op.Delete? {
        DeleteStepKeeps(g, d, rc, foreign, op);
      }
    }
  }

  // ----- subdirectories -----

  /** For every slot the clusters in use by what lies inside its directory.  The driver knows nothing
      of them: it neither lists nor follows nor frees them. */
  type Contents = seq<set<nat>>

  /** Only subdirectories have contents, and no cluster lies in two of them. */
  ghost predicate ContentsFit(slots: seq<Slot>, contents: Contents) {
    && |contents| == |slots|
    && (forall i :: 0 <= i < |slots| && contents[i] != {} ==> InUse(slots[i]) && IsDirectory(slots[i]))
    && (forall i, j :: 0 <= i < |slots| && 0 <= j < |slots| && i != j ==> contents[i] !! contents[j])
  }

  ghost function AllContents(contents: Contents): set<nat> {
    set i, x | 0 <= i < |contents| && x in contents[i] :: x
  }

  /** The disk is well-formed, and its allocated clusters are those of the root directory, of the
      live entries and of the contents of live subdirectories, which are all in use, and `dead`:
      clusters marked bad and clusters that nothing refers to. */
  ghost predicate Accounted(g: Geometry, d: Disk, rc: seq<nat>, contents: Contents, dead: set<nat>) {
    && GoodDisk(g, d, rc, AllContents(contents) + dead)
    && ContentsFit(RootSlots(g, d, rc), contents)
    && AllContents(contents) !! dead
  }

  /** What the operation leaves of the contents: a deleted subdirectory has none. */
  function ContentsAfter(v: Volume, contents: Contents, op: Op): Contents {
    var r := FindFrom(v.slots, op.name, 0);
    if op.Delete? && r.Hit? && r.at < |contents| then contents[r.at := {}] else contents
  }

  /** The clusters that are in use before the operation, or taken by it, and that nothing refers to
      behind it, though they stay allocated. */
  function Lost(v: Volume, contents: Contents, op: Op): set<nat> {
    var r := FindFrom(v.slots, op.name, 0);
    if op.Delete? && r.Hit? && r.at < |contents| then contents[r.at] else Leak(v, op)
  }

  /** A create that succeeds under a name whose first byte is 0xE5, or a delete that hits a
      subdirectory whose contents occupy clusters. */
  predicate LosesClusters(v: Volume, contents: Contents, op: Op) {
    match op
    case Create(name) => HasRoom(v) && name[0] == 0xE5
    case Delete(name) =>
      var r := FindFrom(v.slots, name, 0);
      r.Hit? && IsDirectory(v.slots[r.at]) && r.at < |contents| && contents[r.at] != {}
  }

  /** A disk may be taken to have no subdirectory contents; the accounts then speak about the root
      directory and its entries alone. */
  lemma GoodIsAccounted(g: Geometry, d: Disk, rc: seq<nat>, foreign: set<nat>)
    requires GoodDisk(g, d, rc, foreign)
    ensures Accounted(g, d, rc, seq(RootLen(g, |rc|), _ => {}), foreign)
  {
    var contents: Contents := seq(RootLen(g, |rc|), _ => {});
    assert AllContents(contents) + foreign == foreign;
  }

  lemma ContentsWithout(contents: Contents, i: nat, x: nat)
    requires i < |contents|
    requires forall j :: 0 <= j < |contents| && j != i ==> contents[i] !! contents[j]
    ensures x in AllContents(contents[i := {}]) <==> x in AllContents(contents) && x !in contents[i]
  {
    var contents' := contents[i := {}];
    if x in AllContents(contents) && x !in contents[i] {
      var j :| 0 <= j < |contents| && x in contents[j];
      assert x in contents'[j];
    }
    if x in AllContents(contents') {
      var j :| 0 <= j < |contents'| && x in contents'[j];
      assert x in contents[j];
    }
  }

  /** The accounts of one operation balance: what it takes from the contents it adds to the lost. */
  lemma StepBalances(v: Volume, contents: Contents, op: Op)
    requires ContentsFit(v.slots, contents) && AllContents(contents) !! Leak(v, op)
    ensures var c' := AllContents(ContentsAfter(v, contents, op));
      && c' + Lost(v, contents, op) == AllContents(contents) + Leak(v, op)
      && c' !! Lost(v, contents, op)
  {
    var r := FindFrom(v.slots, op.name, 0);
    if op.Delete? && r.Hit? {
      forall x: nat
        ensures x in AllContents(contents[r.at := {}]) <==> x in AllContents(contents) && x !in contents[r.at]
        ensures x in contents[r.at] ==> x in AllContents(contents)
      {
        ContentsWithout(contents, r.at, x);
      }
    }
  }

  /** Exactly the operations of that description lose clusters. */
  lemma LostIff(v: Volume, contents: Contents, op: Op)
    requires ContentsFit(v.slots, contents)
    ensures Lost(v, contents, op) != {} <==> LosesClusters(v, contents, op)
  {
    if LosesClusters(v, contents, op) && op.Create? {
      assert FirstFree(v.fat, 2) in Lost(v, contents, op);
    }
  }

  lemma FitAfterCreate(slots: seq<Slot>, contents: Contents, i: nat, e: Slot)
    requires ContentsFit(slots, contents) && i < |slots| && IsFree(slots[i])
    ensures ContentsFit(slots[i := e], contents)
  {
  }

  lemma FitAfterErase(slots: seq<Slot>, contents: Contents, i: nat)
    requires ContentsFit(slots, contents) && i < |slots|
    ensures ContentsFit(slots[i := Erased(slots[i])], contents[i := {}])
  {
  }

  lemma CreateStillFits(g: Geometry, d: Disk, rc: seq<nat>, contents: Contents, op: Op)
    requires Mounted(g, d, rc) && ContentsFit(RootSlots(g, d, rc), contents)
    requires CanDo(Abs(g, d, rc), op) && op.Create? && HasRoom(Abs(g, d, rc))
    ensures ContentsFit(RootSlots(g, Do(g, d, rc, op), rc), contents)
  {
    var v := Abs(g, d, rc);
    var i := FreeFrom(v.slots, 0).at;
    CreateRefines(g, d, rc, op.name);
    FreeIsFirstFree(v.slots, 0, i);
    FitAfterCreate(v.slots, contents, i, NewSlot(op.name, FirstFree(v.fat, 2)));
  }

  lemma ContentsStillFit(g: Geometry, d: Disk, rc: seq<nat>, contents: Contents, op: Op)
    requires Mounted(g, d, rc) && ContentsFit(RootSlots(g, d, rc), contents) && CanDo(Abs(g, d, rc), op)
    ensures ContentsFit(RootSlots(g, Do(g, d, rc, op), rc), ContentsAfter(Abs(g, d, rc), contents, op))
  {
    var v := Abs(g, d, rc);
    if op.Create? && HasRoom(v) {
      CreateStillFits(g, d, rc, contents, op);
    } else if op.Delete? && FindFrom(v.slots, op.name, 0).Hit? {
      var i := FindFrom(v.slots, op.name, 0).at;
      RemoveRefines(g, d, rc, i);
      FitAfterErase(v.slots, contents, i);
    }
  }

  lemma StepAccounts(g: Geometry, d: Disk, rc: seq<nat>, contents: Contents, dead: set<nat>, op: Op)
    requires Accounted(g, d, rc, contents, dead) && CanDo(Abs(g, d, rc), op)
    ensures var v := Abs(g, d, rc);
      && Accounted(g, Do(g, d, rc, op), rc, ContentsAfter(v, contents, op), dead + Lost(v, contents, op))
      && dead !! Lost(v, contents, op)
  {
    var v, all := Abs(g, d, rc), AllContents(contents);
    var lost, all' := Lost(v, contents, op), AllContents(ContentsAfter(v, contents, op));
    StepKeeps(g, d, rc, all + dead, op);
    StepBalances(v, contents, op);
    assert all + dead + Leak(v, op) == all' + (dead + lost);
    ContentsStillFit(g, d, rc, contents, op);
  }

  // ----- runs -----

  /** Every operation of the run can be done when its turn comes. */
  predicate CanRun(g: Geometry, d: Disk, rc: seq<nat>, ops: seq<Op>)
    requires Fits(g, d) && AllInVolume(g, rc)
    decreases |ops|
  {
    ops == [] || (CanDo(Abs(g, d, rc), ops[0]) && CanRun(g, Do(g, d, rc, ops[0]), rc, ops[1..]))
  }

  /** The disk after the run. */
  function Run(g: Geometry, d: Disk, rc: seq<nat>, ops: seq<Op>): (r: Disk)
    requires Fits(g, d) && AllInVolume(g, rc) && CanRun(g, d, rc, ops)
    decreases |ops|
  {
    if ops == [] then d else Run(g, Do(g, d, rc, ops[0]), rc, ops[1..])
  }

  /** The contents of the subdirectories that are left after the run. */
  function RunContents(g: Geometry, d: Disk, rc: seq<nat>, contents: Contents, ops: seq<Op>): Contents
    requires Fits(g, d) && AllInVolume(g, rc) && CanRun(g, d, rc, ops)
    decreases |ops|
  {
    if ops == [] then contents
    else RunContents(g, Do(g, d, rc, ops[0]), rc, ContentsAfter(Abs(g, d, rc), contents, ops[0]), ops[1..])
  }

  /** The clusters lost on the way. */
  function RunLost(g: Geometry, d: Disk, rc: seq<nat>, contents: Contents, ops: seq<Op>): set<nat>
    requires Fits(g, d) && AllInVolume(g, rc) && CanRun(g, d, rc, ops)
    decreases |ops|
  {
    if ops == [] then {}
    else
      var v := Abs(g, d, rc);
      Lost(v, contents, ops[0])
        + RunLost(g, Do(g, d, rc, ops[0]), rc, ContentsAfter(v, contents, ops[0]), ops[1..])
  }

  /** No operation of the run loses clusters. */
  predicate CleanRun(g: Geometry, d: Disk, rc: seq<nat>, contents: Contents, ops: seq<Op>)
    requires Fits(g, d) && AllInVolume(g, rc) && CanRun(g, d, rc, ops)
    decreases |ops|
  {
    ops == [] ||
    var v := Abs(g, d, rc);
    && !LosesClusters(v, contents, ops[0])
    && CleanRun(g, Do(g, d, rc, ops[0]), rc, ContentsAfter(v, contents, ops[0]), ops[1..])
  }

  /** After any run of creates and deletes on a well-formed disk, the root chain and the chains of
      all live entries are in range, acyclic, terminated and disjoint, and besides them and the
      contents of the remaining subdirectories exactly the dead and the lost clusters are allocated. */
  lemma {:induction false} RunKeepsGood(g: Geometry, d: Disk, rc: seq<nat>, contents: Contents, ops: seq<Op>,
                                        dead: set<nat>)
    requires Accounted(g, d, rc, contents, dead) && CanRun(g, d, rc, ops)
    ensures var lost := RunLost(g, d, rc, contents, ops);
      && Accounted(g, Run(g, d, rc, ops), rc, RunContents(g, d, rc, contents, ops), dead + lost)
      && dead !! lost
    decreases |ops|
  {
    if ops == [] {
      assert dead + {} == dead;
    } else {
      var v, d1 := Abs(g, d, rc), Do(g, d, rc, ops[0]);
      var contents1, lost := ContentsAfter(v, contents, ops[0]), Lost(v, contents, ops[0]);
      StepAccounts(g, d, rc, contents, dead, ops[0]);
      RunKeepsGood(g, d1, rc, contents1, ops[1..], dead + lost);
      var lost1 := RunLost(g, d1, rc, contents1, ops[1..]);
      assert dead + (lost + lost1) == (dead + lost) + lost1;
    }
  }

  /** A run loses clusters exactly if one of its operations does. */
  lemma {:induction false} RunLostIff(g: Geometry, d: Disk, rc: seq<nat>, contents: Contents, ops: seq<Op>,
                                      dead: set<nat>)
    requires Accounted(g, d, rc, contents, dead) && CanRun(g, d, rc, ops)
    ensures RunLost(g, d, rc, contents, ops) == {} <==> CleanRun(g, d, rc, contents, ops)
    decreases |ops|
  {
    if ops != [] {
      var v := Abs(g, d, rc);
      StepAccounts(g, d, rc, contents, dead, ops[0]);
      LostIff(v, contents, ops[0]);
      RunLostIff(g, Do(g, d, rc, ops[0]), rc, ContentsAfter(v, contents, ops[0]), ops[1..],
                 dead + Lost(v, contents, ops[0]));
    }
  }

  lemma GoodDiskUnique(g: Geometry, d: Disk, rc: seq<nat>, f1: set<nat>, f2: set<nat>)
    requires GoodDisk(g, d, rc, f1) && GoodDisk(g, d, rc, f2)
    ensures f1 == f2
  {
    var cs1: Owners :| DiskInv(g, d, rc, cs1, f1);
    var cs2: Owners :| DiskInv(g, d, rc, cs2, f2);
    var v := Abs(g, d, rc);
    ChainsUnique(v, g.rootCluster, cs1, cs2);
    ForeignUnique(v, cs1, f1, f2);
  }

  /** A run leaves no further cluster dead exactly when none of its creates succeeded under a name
      that begins with 0xE5 and none of its deletes hit a subdirectory whose contents occupied
      clusters. */
  lemma RunIsCleanIff(g: Geometry, d: Disk, rc: seq<nat>, contents: Contents, ops: seq<Op>, dead: set<nat>)
    requires Accounted(g, d, rc, contents, dead) && CanRun(g, d, rc, ops)
    ensures Accounted(g, Run(g, d, rc, ops), rc, RunContents(g, d, rc, contents, ops), dead)
       <==> CleanRun(g, d, rc, contents, ops)
  {
    var d', contents' := Run(g, d, rc, ops), RunContents(g, d, rc, contents, ops);
    var lost, all := RunLost(g, d, rc, contents, ops), AllContents(contents');
    RunKeepsGood(g, d, rc, contents, ops, dead);
    RunLostIff(g, d, rc, contents, ops, dead);
    if CleanRun(g, d, rc, contents, ops) {
      assert dead + lost == dead;
    } else if Accounted(g, d', rc, contents', dead) {
      GoodDiskUnique(g, d', rc, all + dead, all + (dead + lost));
      NothingAdded(all, dead, lost);
    }
  }

  lemma NothingAdded(a: set<nat>, b: set<nat>, c: set<nat>)
    requires a + b == a + (b + c) && a !! c && b !! c
    ensures c == {}
  {
    assert forall x :: x in c ==> x in a + b;
  }
}
