/** What reading a file yields, and that no operation on other files changes it. */
module FileContents {
  import opened Bytes
  import opened FatTable
  import opened Chains
  import opened Directory
  import opened Volumes
  import opened DiskImage
  import opened DiskOps

  /** The bytes a read of `size` bytes starting at cluster c delivers: cluster after cluster until the
      size is reached or the chain ends.  The size shrinks in every round, so this ends on every
      table, cyclic ones included. */
  function ReadBytes(g: Geometry, d: Disk, c: nat, size: nat): (bs: seq<byte>)
    requires Fits(g, d)
    ensures |bs| <= size
    decreases size
  {
    if !InFat(FatView(g, d), c) || size == 0 then []
    else if size < g.spc * 512 then ClusterBytes(g, d, c)[..size]
    else ClusterBytes(g, d, c) + ReadBytes(g, d, FatGet(g, d, c), size - g.spc * 512)
  }

  /** All bytes of the clusters of a chain. */
  function ChainBytes(g: Geometry, d: Disk, ch: seq<nat>): seq<byte>
    requires Fits(g, d) && AllInVolume(g, ch)
  {
    if ch == [] then [] else ClusterBytes(g, d, ch[0]) + ChainBytes(g, d, ch[1..])
  }

  /** A read delivers the chain's bytes, truncated to the size asked for; a chain that is long
      enough delivers all of them. */
  lemma {:induction false} ReadIsPrefix(g: Geometry, d: Disk, c: nat, ch: seq<nat>, size: nat)
    requires Fits(g, d) && IsChain(FatView(g, d), c, ch) && AllInVolume(g, ch)
    ensures var all := ChainBytes(g, d, ch);
      ReadBytes(g, d, c, size) == if size <= |all| then all[..size] else all
    decreases |ch|
  {
    if ch != [] && size > 0 {
      var first, rest := ClusterBytes(g, d, c), ChainBytes(g, d, ch[1..]);
      LinkedTail(FatView(g, d), ch);
      if size < |first| {
        assert (first + rest)[..size] == first[..size];
      } else {
        ReadIsPrefix(g, d, FatGet(g, d, c), ch[1..], size - |first|);
        if size <= |first| + |rest| {
          assert (first + rest)[..size] == first + rest[..size - |first|];
        }
      }
    }
  }

  /** The same along any run of links, one that comes back to itself or never ends included, as far as
      the run is long enough for the size. */
  lemma {:induction false} ReadFollowsLinks(g: Geometry, d: Disk, c: nat, ch: seq<nat>, size: nat)
    requires Fits(g, d) && AllInVolume(g, ch) && (ch != [] ==> ch[0] == c)
    requires forall k :: 0 <= k < |ch| - 1 ==> FatGet(g, d, ch[k]) == ch[k + 1]
    requires size <= |ChainBytes(g, d, ch)|
    ensures ReadBytes(g, d, c, size) == ChainBytes(g, d, ch)[..size]
    decreases |ch|
  {
    if size > 0 {
      var first, rest := ClusterBytes(g, d, c), ChainBytes(g, d, ch[1..]);
      if size < |first| {
        assert (first + rest)[..size] == first[..size];
      } else {
        if |ch| > 1 {
          assert FatGet(g, d, ch[0]) == ch[1];
        }
        ReadFollowsLinks(g, d, FatGet(g, d, c), ch[1..], size - |first|);
        assert (first + rest)[..size] == first + rest[..size - |first|];
      }
    }
  }

  /** Table entry and contents of cluster x are the same on both disks. */
  ghost predicate SameCluster(g: Geometry, d: Disk, d': Disk, x: nat)
    requires Fits(g, d) && Fits(g, d') && InVolume(g, x)
  {
    FatView(g, d')[x] == FatView(g, d)[x] && ClusterBytes(g, d', x) == ClusterBytes(g, d, x)
  }

  /** The same for all clusters of a chain. */
  ghost predicate SameFile(g: Geometry, d: Disk, d': Disk, ch: seq<nat>)
    requires Fits(g, d) && Fits(g, d') && AllInVolume(g, ch)
  {
    forall k :: 0 <= k < |ch| ==> SameCluster(g, d, d', ch[k])
  }

  /** Reading sees only the chain's own table entries and the chain's own clusters. */
  lemma {:induction false} ReadFrame(g: Geometry, d: Disk, d': Disk, c: nat, ch: seq<nat>, size: nat)
    requires Fits(g, d) && Fits(g, d') && IsChain(FatView(g, d), c, ch) && AllInVolume(g, ch)
    requires SameFile(g, d, d', ch)
    ensures ReadBytes(g, d', c, size) == ReadBytes(g, d, c, size)
    decreases |ch|
  {
    if ch != [] {
      assert SameCluster(g, d, d', ch[0]);
      if size >= g.spc * 512 {
        LinkedTail(FatView(g, d), ch);
        ReadFrame(g, d, d', FatGet(g, d, c), ch[1..], size - g.spc * 512);
      }
    }
  }

  // ----- what create and delete leave alone -----

  /** A slot write, whatever happens to the table, leaves the clusters outside the root directory
      alone. */
  lemma WriteSparesBytes(g: Geometry, d: Disk, rc: seq<nat>, i: nat, e: Slot, d': Disk, x: nat)
    requires Mounted(g, d, rc) && i < RootLen(g, |rc|) && InVolume(g, x) && x !in rc
    requires |d'| == |d| && Fits(g, d') && d'[g.dataStart..] == WriteRoot(g, d, rc, i, e)[g.dataStart..]
    ensures ClusterBytes(g, d', x) == ClusterBytes(g, d, x)
  {
    WriteRootFrame(g, d, rc, i, e, x);
    ClusterBytesFrame(g, WriteRoot(g, d, rc, i, e), d', x);
  }

  lemma CreateSparesCluster(g: Geometry, d: Disk, rc: seq<nat>, name: Name11, x: nat)
    requires Mounted(g, d, rc) && HasRoom(Abs(g, d, rc))
    requires InVolume(g, x) && x !in rc && x != FirstFree(FatView(g, d), 2)
    ensures SameCluster(g, d, CreateDisk(g, d, rc, name), x)
  {
    var v := Abs(g, d, rc);
    var i, c := FreeFrom(v.slots, 0).at, FirstFree(v.fat, 2);
    var d1 := WriteRoot(g, d, rc, i, NewSlot(name, c));
    CreateRefines(g, d, rc, name);
    FatSetKeepsData(g, d1, c, 0x0FFF_FFFF);
    WriteSparesBytes(g, d, rc, i, NewSlot(name, c), CreateDisk(g, d, rc, name), x);
  }

  /** Wherever a delete is interrupted. */
  lemma DeleteSparesCluster(g: Geometry, d: Disk, rc: seq<nat>, i: nat, ch: seq<nat>, j: nat, x: nat)
    requires Mounted(g, d, rc) && i < RootLen(g, |rc|)
    requires IsChain(FatView(g, d), ClusterOf(RootSlots(g, d, rc)[i]), ch) && j < |RemoveStates(g, d, rc, i)|
    requires InVolume(g, x) && x !in rc && x !in ch
    ensures Fits(g, RemoveStates(g, d, rc, i)[j]) && SameCluster(g, d, RemoveStates(g, d, rc, i)[j], x)
  {
    RemoveStatesCount(g, d, rc, i, ch);
    RemoveStatesCleared(g, d, rc, i, ch, j);
    WriteRootRefines(g, d, rc, i, Erased(RootSlots(g, d, rc)[i]));
    WriteSparesBytes(g, d, rc, i, Erased(RootSlots(g, d, rc)[i]), RemoveStates(g, d, rc, i)[j], x);
  }

  /** Chain k of a well-formed disk meets neither the root directory nor any other chain. */
  lemma ChainApart(g: Geometry, d: Disk, rc: seq<nat>, cs: Owners, foreign: set<nat>, k: nat)
    requires DiskInv(g, d, rc, cs, foreign) && Live(RootSlots(g, d, rc), k)
    ensures k < |cs| && AllInVolume(g, cs[k]) && IsChain(FatView(g, d), ClusterOf(RootSlots(g, d, rc)[k]), cs[k])
    ensures forall x :: x in cs[k] ==> x !in rc && Owns(cs, x)
    ensures forall x, i :: x in cs[k] && 0 <= i < |cs| && i != k ==> x !in cs[i]
  {
    RootOwned(g, d, rc, cs, foreign);
    assert SlotChain(Abs(g, d, rc).fat, Abs(g, d, rc).slots[k], cs[k]);
  }

  /** Every live file reads the same before and after a create ... */
  lemma CreateKeepsContents(g: Geometry, d: Disk, rc: seq<nat>, cs: Owners, foreign: set<nat>,
                            name: Name11, k: nat, size: nat)
    requires DiskInv(g, d, rc, cs, foreign) && HasRoom(Abs(g, d, rc)) && Live(RootSlots(g, d, rc), k)
    ensures var c := ClusterOf(RootSlots(g, d, rc)[k]);
      ReadBytes(g, CreateDisk(g, d, rc, name), c, size) == ReadBytes(g, d, c, size)
  {
    var d' := CreateDisk(g, d, rc, name);
    ChainApart(g, d, rc, cs, foreign, k);
    FreeClusterUnowned(Abs(g, d, rc), g.rootCluster, cs, foreign);
    forall m | 0 <= m < |cs[k]| ensures SameCluster(g, d, d', cs[k][m]) {
      CreateSparesCluster(g, d, rc, name, cs[k][m]);
    }
    ReadFrame(g, d, d', ClusterOf(RootSlots(g, d, rc)[k]), cs[k], size);
  }

  /** ... and every live file but the deleted one before, during and after a delete, wherever it is
      interrupted. */
  lemma DeleteKeepsContents(g: Geometry, d: Disk, rc: seq<nat>, cs: Owners, foreign: set<nat>,
                            i: nat, j: nat, k: nat, size: nat)
    requires DiskInv(g, d, rc, cs, foreign) && Live(RootSlots(g, d, rc), i)
    requires Live(RootSlots(g, d, rc), k) && k != i && j < |RemoveStates(g, d, rc, i)|
    ensures var c, r := ClusterOf(RootSlots(g, d, rc)[k]), RemoveStates(g, d, rc, i)[j];
      Fits(g, r) && ReadBytes(g, r, c, size) == ReadBytes(g, d, c, size)
  {
    var r := RemoveStates(g, d, rc, i)[j];
    ChainApart(g, d, rc, cs, foreign, i);
    ChainApart(g, d, rc, cs, foreign, k);
    RemoveStatesCount(g, d, rc, i, cs[i]);
    RemoveStatesRefine(g, d, rc, i, cs[i], j);
    forall m | 0 <= m < |cs[k]| ensures SameCluster(g, d, r, cs[k][m]) {
      DeleteSparesCluster(g, d, rc, i, cs[i], j, cs[k][m]);
    }
    ReadFrame(g, d, r, ClusterOf(RootSlots(g, d, rc)[k]), cs[k], size);
  }

  // ----- files over whole runs -----

  /** Looking up `name` and reading what it names gives the same on both disks. */
  ghost predicate SameView(g: Geometry, d: Disk, d': Disk, rc: seq<nat>, name: Name11, size: nat)
    requires Fits(g, d) && Fits(g, d') && AllInVolume(g, rc)
  {
    var r := FindFrom(RootSlots(g, d, rc), name, 0);
    && SameResult(RootSlots(g, d, rc), RootSlots(g, d', rc), name)
    && (r.Hit? ==> var c := ClusterOf(RootSlots(g, d, rc)[r.at]);
                   ReadBytes(g, d', c, size) == ReadBytes(g, d, c, size))
  }

  lemma CreateStepView(g: Geometry, d: Disk, rc: seq<nat>, foreign: set<nat>, op: Op, name: Name11, size: nat)
    requires GoodDisk(g, d, rc, foreign) && CanDo(Abs(g, d, rc), op) && op.name != name
    requires op.Create? && HasRoom(Abs(g, d, rc))
    ensures SameView(g, d, Do(g, d, rc, op), rc, name, size)
  {
    var cs: Owners :| DiskInv(g, d, rc, cs, foreign);
    var v := Abs(g, d, rc);
    CreateRefines(g, d, rc, op.name);
    CreateKeepsOtherNames(v, op.name, name);
    var r := FindFrom(v.slots, name, 0);
    if r.Hit? {
      FindIsFirstLive(v.slots, name, 0, r.at);
      CreateKeepsContents(g, d, rc, cs, foreign, op.name, r.at, size);
    }
  }

  lemma DeleteStepView(g: Geometry, d: Disk, rc: seq<nat>, foreign: set<nat>, op: Op, name: Name11, size: nat)
    requires GoodDisk(g, d, rc, foreign) && CanDo(Abs(g, d, rc), op) && op.name != name
    requires op.Delete? && FindFrom(RootSlots(g, d, rc), op.name, 0).Hit?
    ensures SameView(g, d, Do(g, d, rc, op), rc, name, size)
  {
    var cs: Owners :| DiskInv(g, d, rc, cs, foreign);
    var v := Abs(g, d, rc);
    var i, r := FindFrom(v.slots, op.name, 0).at, FindFrom(v.slots, name, 0);
    RemoveRefines(g, d, rc, i);
    RemoveKeepsOtherNames(v, op.name, name);
    FindIsFirstLive(v.slots, op.name, 0, i);
    if r.Hit? {
      FindIsFirstLive(v.slots, name, 0, r.at);
      DeleteKeepsContents(g, d, rc, cs, foreign, i, |RemoveStates(g, d, rc, i)| - 1, r.at, size);
    }
  }

  lemma StepKeepsView(g: Geometry, d: Disk, rc: seq<nat>, foreign: set<nat>, op: Op, name: Name11, size: nat)
    requires GoodDisk(g, d, rc, foreign) && CanDo(Abs(g, d, rc), op) && op.name != name
    ensures SameView(g, d, Do(g, d, rc, op), rc, name, size)
  {
    if op.Create? && HasRoom(Abs(g, d, rc)) {
      CreateStepView(g, d, rc, foreign, op, name, size);
    } else if op.Delete? && FindFrom(RootSlots(g, d, rc), op.name, 0).Hit? {
      DeleteStepView(g, d, rc, foreign, op, name, size);
    } else {
      assert Do(g, d, rc, op) == d;
      SameViewReflexive(g, d, rc, name, size);
    }
  }

  lemma SameViewReflexive(g: Geometry, d: Disk, rc: seq<nat>, name: Name11, size: nat)
    requires Fits(g, d) && AllInVolume(g, rc)
    ensures SameView(g, d, d, rc, name, size)
  {
  }

  /** However long a run of creates and deletes is: a name that none of them mentions is found in
      the same slot as before, or again not at all, and its file reads the same. */
  lemma {:induction false} RunKeepsView(g: Geometry, d: Disk, rc: seq<nat>, ops: seq<Op>, foreign: set<nat>,
                                        name: Name11, size: nat)
    requires GoodDisk(g, d, rc, foreign) && CanRun(g, d, rc, ops)
    requires forall k :: 0 <= k < |ops| ==> ops[k].name != name
    ensures Fits(g, Run(g, d, rc, ops)) && SameView(g, d, Run(g, d, rc, ops), rc, name, size)
    decreases |ops|
  {
    if ops != [] {
      StepKeeps(g, d, rc, foreign, ops[0]);
      StepKeepsView(g, d, rc, foreign, ops[0], name, size);
      RunKeepsView(g, Do(g, d, rc, ops[0]), rc, ops[1..], foreign + Leak(Abs(g, d, rc), ops[0]), name, size);
    }
  }

  // ----- clusters inside subdirectories -----

  lemma CreateStepSparesForeign(g: Geometry, d: Disk, rc: seq<nat>, foreign: set<nat>, op: Op, x: nat)
    requires GoodDisk(g, d, rc, foreign) && x in foreign
    requires CanDo(Abs(g, d, rc), op) && op.Create? && HasRoom(Abs(g, d, rc))
    ensures InVolume(g, x) && SameCluster(g, d, Do(g, d, rc, op), x)
  {
    var cs: Owners :| DiskInv(g, d, rc, cs, foreign);
    RootOwned(g, d, rc, cs, foreign);
    FreeClusterUnowned(Abs(g, d, rc), g.rootCluster, cs, foreign);
    CreateSparesCluster(g, d, rc, op.name, x);
  }

  lemma DeleteStepSparesForeign(g: Geometry, d: Disk, rc: seq<nat>, foreign: set<nat>, op: Op, x: nat)
    requires GoodDisk(g, d, rc, foreign) && x in foreign
    requires CanDo(Abs(g, d, rc), op) && op.Delete? && FindFrom(RootSlots(g, d, rc), op.name, 0).Hit?
    ensures InVolume(g, x) && SameCluster(g, d, Do(g, d, rc, op), x)
  {
    var cs: Owners :| DiskInv(g, d, rc, cs, foreign);
    var i := FindFrom(RootSlots(g, d, rc), op.name, 0).at;
    FindIsFirstLive(RootSlots(g, d, rc), op.name, 0, i);
    ChainApart(g, d, rc, cs, foreign, i);
    RootOwned(g, d, rc, cs, foreign);
    DeleteSparesCluster(g, d, rc, i, cs[i], |RemoveStates(g, d, rc, i)| - 1, x);
  }

  /** No run touches the entry or the contents of a cluster that belongs neither to the root directory
      nor to one of its entries: whatever lies inside subdirectories keeps its bytes. */
  lemma {:induction false} RunSparesForeign(g: Geometry, d: Disk, rc: seq<nat>, ops: seq<Op>, foreign: set<nat>, x: nat)
    requires GoodDisk(g, d, rc, foreign) && CanRun(g, d, rc, ops) && x in foreign
    ensures InVolume(g, x) && Fits(g, Run(g, d, rc, ops)) && SameCluster(g, d, Run(g, d, rc, ops), x)
    decreases |ops|
  {
    if ops == [] {
      var cs: Owners :| DiskInv(g, d, rc, cs, foreign);
    } else {
      StepKeeps(g, d, rc, foreign, ops[0]);
      RunSparesForeign(g, Do(g, d, rc, ops[0]), rc, ops[1..], foreign + Leak(Abs(g, d, rc), ops[0]), x);
      if ops[0].Create? && HasRoom(Abs(g, d, rc)) {
        CreateStepSparesForeign(g, d, rc, foreign, ops[0], x);
      } else if ops[0].Delete? && FindFrom(RootSlots(g, d, rc), ops[0].name, 0).Hit? {
        DeleteStepSparesForeign(g, d, rc, foreign, ops[0], x);
      }
    }
  }
}
