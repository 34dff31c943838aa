/** The volume as it lies on the disk: where the root directory's slots are, what create, delete and
    read do to or see of the sectors, and that this refines the operations on `Volume`. */
module DiskImage {
  import opened Bytes
  import opened FatTable
  import opened Chains
  import opened Directory

  // ----- slots in sectors -----

  /** Sixteen slots fill a sector, so that none straddles a sector boundary. */
  function SlotIn(sec: Sector, k: nat): Slot
    requires k < 16
  {
    sec[32 * k..32 * k + 32]
  }

  lemma SlotInPatched(sec: Sector, k: nat, e: Slot, m: nat)
    requires k < 16 && m < 16
    ensures SlotIn(Patched(sec, 32 * k, e), m) == if m == k then e else SlotIn(sec, m)
  {
    var sec' := Patched(sec, 32 * k, e);
    if m < k {
      assert sec'[32 * m..32 * m + 32] == sec[32 * m..32 * m + 32];
    } else if m > k {
      assert sec'[32 * m..32 * m + 32] == sec[32 * m..32 * m + 32];
    } else {
      assert sec'[32 * m..32 * m + 32] == e;
    }
  }

  function ClusterSlots(g: Geometry, d: Disk, c: nat): (r: seq<Slot>)
    requires Fits(g, d) && InVolume(g, c)
    ensures |r| == 16 * g.spc
    ensures forall s :: 0 <= s < |r| ==> Lba(g, c) + s / 16 < |d| && r[s] == SlotIn(d[Lba(g, c) + s / 16], s % 16)
  {
    LbaInRange(g, c);
    seq(16 * g.spc, s requires 0 <= s < 16 * g.spc => SlotIn(d[Lba(g, c) + s / 16], s % 16))
  }

  lemma SlotByteIndex(s: nat, b: nat)
    requires b < 32
    ensures (32 * s + b) / 512 == s / 16 && (32 * s + b) % 512 == 32 * (s % 16) + b
  {
  }

  /** A directory cluster read as a run of bytes consists of its slots. */
  lemma ClusterSlotBytes(g: Geometry, d: Disk, c: nat, s: nat)
    requires Fits(g, d) && InVolume(g, c) && s < 16 * g.spc
    ensures ClusterSlots(g, d, c)[s] == ClusterBytes(g, d, c)[32 * s..32 * s + 32]
  {
    LbaInRange(g, c);
    var bs, slot := ClusterBytes(g, d, c), ClusterSlots(g, d, c)[s];
    forall b | 0 <= b < 32 ensures slot[b] == bs[32 * s..32 * s + 32][b] {
      SlotByteIndex(s, b);
      assert bs[32 * s + b] == d[Lba(g, c) + (32 * s + b) / 512][(32 * s + b) % 512];
    }
  }

  // ----- the root directory -----

  /** The clusters of a chain lie in the volume. */
  ghost predicate AllInVolume(g: Geometry, rc: seq<nat>) {
    forall k :: 0 <= k < |rc| ==> InVolume(g, rc[k])
  }

  /** Number of slots in n clusters. */
  function RootLen(g: Geometry, n: nat): nat {
    if n == 0 then 0 else 16 * g.spc + RootLen(g, n - 1)
  }

  lemma RootLenNext(g: Geometry, n: nat)
    ensures RootLen(g, n + 1) == RootLen(g, n) + 16 * g.spc
  {
  }

  /** All slots of the directory whose clusters are `rc`, in order. */
  function RootSlots(g: Geometry, d: Disk, rc: seq<nat>): (r: seq<Slot>)
    requires Fits(g, d) && AllInVolume(g, rc)
    ensures |r| == RootLen(g, |rc|)
  {
    if rc == [] then [] else ClusterSlots(g, d, rc[0]) + RootSlots(g, d, rc[1..])
  }

  /** The slots of cluster i are the ones behind those of the clusters before it. */
  lemma {:induction false} RootWindow(g: Geometry, d: Disk, rc: seq<nat>, i: nat)
    requires Fits(g, d) && AllInVolume(g, rc) && i < |rc|
    ensures Window(RootSlots(g, d, rc), RootLen(g, i), ClusterSlots(g, d, rc[i]))
    decreases i
  {
    var all, loc := RootSlots(g, d, rc), ClusterSlots(g, d, rc[i]);
    if i == 0 {
      assert all[..|loc|] == loc;
    } else {
      RootWindow(g, d, rc[1..], i - 1);
      WindowBehind(ClusterSlots(g, d, rc[0]), RootSlots(g, d, rc[1..]), RootLen(g, i - 1), loc);
    }
  }

  lemma WindowBehind(a: seq<Slot>, rest: seq<Slot>, base: nat, loc: seq<Slot>)
    requires Window(rest, base, loc)
    ensures Window(a + rest, |a| + base, loc)
  {
    var all := a + rest;
    assert all[|a| + base..|a| + base + |loc|] == rest[base..base + |loc|];
  }

  /** The same, with the position of the next cluster's slots. */
  lemma RootWindowEnd(g: Geometry, d: Disk, rc: seq<nat>, k: nat)
    requires Fits(g, d) && AllInVolume(g, rc) && k < |rc|
    ensures var loc := ClusterSlots(g, d, rc[k]);
      Window(RootSlots(g, d, rc), RootLen(g, k), loc) && RootLen(g, k + 1) == RootLen(g, k) + |loc|
  {
    RootWindow(g, d, rc, k);
    RootLenNext(g, k);
  }

  /** The disk after slot s of cluster c was overwritten, by rewriting the sector it lies in. */
  function WriteSlot(g: Geometry, d: Disk, c: nat, s: nat, e: Slot): (r: Disk)
    requires Fits(g, d) && InVolume(g, c) && s < 16 * g.spc
    ensures |r| == |d| && Fits(g, r)
  {
    LbaInRange(g, c);
    var lba := Lba(g, c) + s / 16;
    d[lba := Patched(d[lba], 32 * (s % 16), e)]
  }

  /** The disk after slot i of the directory was overwritten. */
  function WriteRoot(g: Geometry, d: Disk, rc: seq<nat>, i: nat, e: Slot): (r: Disk)
    requires Fits(g, d) && AllInVolume(g, rc) && i < RootLen(g, |rc|)
    ensures |r| == |d| && Fits(g, r)
  {
    if i < 16 * g.spc then WriteSlot(g, d, rc[0], i, e)
    else WriteRoot(g, d, rc[1..], i - 16 * g.spc, e)
  }

  /** Slot s of the directory's k-th cluster, by number. */
  lemma {:induction false} WriteRootAt(g: Geometry, d: Disk, rc: seq<nat>, k: nat, s: nat, e: Slot)
    requires Fits(g, d) && AllInVolume(g, rc) && k < |rc| && s < 16 * g.spc
    ensures RootLen(g, k) + s < RootLen(g, |rc|)
    ensures WriteRoot(g, d, rc, RootLen(g, k) + s, e) == WriteSlot(g, d, rc[k], s, e)
    decreases k
  {
    if k > 0 {
      WriteRootAt(g, d, rc[1..], k - 1, s, e);
    }
  }

  /** A slot write leaves the sectors of all other clusters, and everything before the data, alone. */
  lemma WriteSlotFrame(g: Geometry, d: Disk, c: nat, s: nat, e: Slot, x: nat)
    requires Fits(g, d) && InVolume(g, c) && s < 16 * g.spc
    requires InVolume(g, x) && x != c
    ensures ClusterBytes(g, WriteSlot(g, d, c, s, e), x) == ClusterBytes(g, d, x)
    ensures ClusterSlots(g, WriteSlot(g, d, c, s, e), x) == ClusterSlots(g, d, x)
  {
    LbaInRange(g, c);
    LbaInRange(g, x);
    var d' := WriteSlot(g, d, c, s, e);
    forall y | Lba(g, x) <= y < Lba(g, x) + g.spc ensures d'[y] == d[y] {
      ClustersDisjoint(g, x, c, y - Lba(g, x), s / 16);
    }
    SameBytes(g, d, d', x);
    SameSlots(g, d, d', x);
  }

  lemma SameBytes(g: Geometry, d: Disk, d': Disk, c: nat)
    requires Fits(g, d) && Fits(g, d') && InVolume(g, c)
    requires Lba(g, c) + g.spc <= |d| && Lba(g, c) + g.spc <= |d'|
    requires forall y :: Lba(g, c) <= y < Lba(g, c) + g.spc ==> d'[y] == d[y]
    ensures ClusterBytes(g, d', c) == ClusterBytes(g, d, c)
  {
    forall i | 0 <= i < g.spc * 512 ensures ClusterBytes(g, d', c)[i] == ClusterBytes(g, d, c)[i] {
      assert d'[Lba(g, c) + i / 512] == d[Lba(g, c) + i / 512];
    }
  }

  lemma WriteSlotKeepsFat(g: Geometry, d: Disk, c: nat, s: nat, e: Slot)
    requires Fits(g, d) && InVolume(g, c) && s < 16 * g.spc
    ensures FatView(g, WriteSlot(g, d, c, s, e)) == FatView(g, d)
  {
    LbaInRange(g, c);
    FatViewFrame(g, d, WriteSlot(g, d, c, s, e));
  }

  lemma WriteSlotLocal(g: Geometry, d: Disk, c: nat, s: nat, e: Slot)
    requires Fits(g, d) && InVolume(g, c) && s < 16 * g.spc
    ensures ClusterSlots(g, WriteSlot(g, d, c, s, e), c) == ClusterSlots(g, d, c)[s := e]
  {
    LbaInRange(g, c);
    var d', lba := WriteSlot(g, d, c, s, e), Lba(g, c);
    var a, b := ClusterSlots(g, d', c), ClusterSlots(g, d, c);
    forall t | 0 <= t < 16 * g.spc ensures a[t] == b[s := e][t] {
      if t / 16 == s / 16 {
        SlotInPatched(d[lba + s / 16], s % 16, e, t % 16);
      }
    }
  }

  lemma {:induction false} WriteRootFrame(g: Geometry, d: Disk, rc: seq<nat>, i: nat, e: Slot, x: nat)
    requires Fits(g, d) && AllInVolume(g, rc) && i < RootLen(g, |rc|)
    requires InVolume(g, x) && x !in rc
    ensures ClusterBytes(g, WriteRoot(g, d, rc, i, e), x) == ClusterBytes(g, d, x)
    ensures ClusterSlots(g, WriteRoot(g, d, rc, i, e), x) == ClusterSlots(g, d, x)
    decreases |rc|
  {
    if i < 16 * g.spc {
      WriteSlotFrame(g, d, rc[0], i, e, x);
    } else {
      WriteRootFrame(g, d, rc[1..], i - 16 * g.spc, e, x);
    }
  }

  lemma {:induction false} WriteRootKeepsFat(g: Geometry, d: Disk, rc: seq<nat>, i: nat, e: Slot)
    requires Fits(g, d) && AllInVolume(g, rc) && i < RootLen(g, |rc|)
    ensures FatView(g, WriteRoot(g, d, rc, i, e)) == FatView(g, d)
    decreases |rc|
  {
    if i < 16 * g.spc {
      WriteSlotKeepsFat(g, d, rc[0], i, e);
    } else {
      WriteRootKeepsFat(g, d, rc[1..], i - 16 * g.spc, e);
    }
  }

  lemma {:induction false} RootSlotsFrame(g: Geometry, d: Disk, d': Disk, rc: seq<nat>)
    requires Fits(g, d) && Fits(g, d') && AllInVolume(g, rc)
    requires forall k :: 0 <= k < |rc| ==> ClusterSlots(g, d', rc[k]) == ClusterSlots(g, d, rc[k])
    ensures RootSlots(g, d', rc) == RootSlots(g, d, rc)
    decreases |rc|
  {
    if rc != [] {
      RootSlotsFrame(g, d, d', rc[1..]);
    }
  }

  ghost predicate Distinct(rc: seq<nat>) {
    forall i, j :: 0 <= i < j < |rc| ==> rc[i] != rc[j]
  }

  lemma WriteFirstCluster(g: Geometry, d: Disk, rc: seq<nat>, i: nat, e: Slot)
    requires Fits(g, d) && AllInVolume(g, rc) && Distinct(rc) && rc != [] && i < 16 * g.spc
    ensures RootSlots(g, WriteSlot(g, d, rc[0], i, e), rc) == RootSlots(g, d, rc)[i := e]
  {
    var d' := WriteSlot(g, d, rc[0], i, e);
    WriteSlotLocal(g, d, rc[0], i, e);
    forall k | 0 <= k < |rc[1..]| ensures ClusterSlots(g, d', rc[1..][k]) == ClusterSlots(g, d, rc[1..][k]) {
      WriteSlotFrame(g, d, rc[0], i, e, rc[k + 1]);
    }
    RootSlotsFrame(g, d, d', rc[1..]);
    UpdateInConcat(ClusterSlots(g, d, rc[0]), RootSlots(g, d, rc[1..]), i, e);
  }

  lemma UpdateInConcat(a: seq<Slot>, b: seq<Slot>, i: nat, e: Slot)
    requires i < |a| + |b|
    ensures var all: seq<Slot> := a + b;
      all[i := e] == if i < |a| then a[i := e] + b else a + b[i - |a| := e]
  {
  }

  lemma WriteLaterCluster(g: Geometry, d: Disk, rc: seq<nat>, i: nat, e: Slot)
    requires Fits(g, d) && AllInVolume(g, rc) && Distinct(rc) && 16 * g.spc <= i < RootLen(g, |rc|)
    requires var d' := WriteRoot(g, d, rc[1..], i - 16 * g.spc, e);
      RootSlots(g, d', rc[1..]) == RootSlots(g, d, rc[1..])[i - 16 * g.spc := e]
    ensures RootSlots(g, WriteRoot(g, d, rc, i, e), rc) == RootSlots(g, d, rc)[i := e]
  {
    WriteRootFrame(g, d, rc[1..], i - 16 * g.spc, e, rc[0]);
    UpdateInConcat(ClusterSlots(g, d, rc[0]), RootSlots(g, d, rc[1..]), i, e);
  }

  /** Writing slot i of the directory changes slot i and no other: the sectors refine a list. */
  lemma {:induction false} WriteRootSlots(g: Geometry, d: Disk, rc: seq<nat>, i: nat, e: Slot)
    requires Fits(g, d) && AllInVolume(g, rc) && Distinct(rc) && i < RootLen(g, |rc|)
    ensures RootSlots(g, WriteRoot(g, d, rc, i, e), rc) == RootSlots(g, d, rc)[i := e]
    decreases |rc|
  {
    if i < 16 * g.spc {
      WriteFirstCluster(g, d, rc, i, e);
    } else {
      WriteRootSlots(g, d, rc[1..], i - 16 * g.spc, e);
      WriteLaterCluster(g, d, rc, i, e);
    }
  }

  // ----- writes to the table -----

  /** Two disks with the same data area hold the same directory and the same contents. */
  lemma DataFrame(g: Geometry, d: Disk, d': Disk, rc: seq<nat>)
    requires Fits(g, d) && Fits(g, d') && |d'| == |d| && AllInVolume(g, rc)
    requires d'[g.dataStart..] == d[g.dataStart..]
    ensures RootSlots(g, d', rc) == RootSlots(g, d, rc)
  {
    forall k | 0 <= k < |rc| ensures ClusterSlots(g, d', rc[k]) == ClusterSlots(g, d, rc[k]) {
      ClusterBytesFrame(g, d, d', rc[k]);
      SameSlots(g, d, d', rc[k]);
    }
    RootSlotsFrame(g, d, d', rc);
  }

  lemma SameSlots(g: Geometry, d: Disk, d': Disk, c: nat)
    requires Fits(g, d) && Fits(g, d') && InVolume(g, c)
    requires ClusterBytes(g, d', c) == ClusterBytes(g, d, c)
    ensures ClusterSlots(g, d', c) == ClusterSlots(g, d, c)
  {
    forall s | 0 <= s < 16 * g.spc ensures ClusterSlots(g, d', c)[s] == ClusterSlots(g, d, c)[s] {
      ClusterSlotBytes(g, d, c, s);
      ClusterSlotBytes(g, d', c, s);
    }
  }

  /** The sequence of disks that the release loop produces, one per write. */
  function ReleaseStates(g: Geometry, d: Disk, c: nat): seq<Disk>
    requires Fits(g, d)
    decreases NonZero(FatView(g, d)), if IsLink(c) then 1 else 0
  {
    if !InFat(FatView(g, d), c) then []
    else
      FatViewSet(g, d, c, 0);
      NonZeroCleared(FatView(g, d), c);
      [FatSet(g, d, c, 0)] + ReleaseStates(g, FatSet(g, d, c, 0), FatGet(g, d, c))
  }

  function LastOr(ss: seq<Disk>, d: Disk): Disk {
    if ss == [] then d else ss[|ss| - 1]
  }

  lemma LastOrCons(first: Disk, rest: seq<Disk>, d: Disk)
    ensures LastOr([first] + rest, d) == LastOr(rest, first)
  {
  }

  /** The disk when the loop is done. */
  function ReleaseDisk(g: Geometry, d: Disk, c: nat): Disk
    requires Fits(g, d)
  {
    LastOr(ReleaseStates(g, d, c), d)
  }

  lemma ReleaseUnfold(g: Geometry, d: Disk, c: nat)
    requires Fits(g, d) && InFat(FatView(g, d), c)
    ensures ReleaseStates(g, d, c) == [FatSet(g, d, c, 0)] + ReleaseStates(g, FatSet(g, d, c, 0), FatGet(g, d, c))
    ensures ReleaseDisk(g, d, c) == ReleaseDisk(g, FatSet(g, d, c, 0), FatGet(g, d, c))
  {
    LastOrCons(FatSet(g, d, c, 0), ReleaseStates(g, FatSet(g, d, c, 0), FatGet(g, d, c)), d);
  }

  /** On the disk as on the table: release zeroes entries and touches no data sector. */
  lemma {:induction false} ReleaseRefines(g: Geometry, d: Disk, c: nat)
    requires Fits(g, d)
    ensures var r := ReleaseDisk(g, d, c);
      && Fits(g, r) && |r| == |d| && FatView(g, r) == Release(FatView(g, d), c)
      && r[g.dataStart..] == d[g.dataStart..]
    decreases NonZero(FatView(g, d)), if IsLink(c) then 1 else 0
  {
    if InFat(FatView(g, d), c) {
      var d1, next := FatSet(g, d, c, 0), FatGet(g, d, c);
      FatViewSet(g, d, c, 0);
      NonZeroCleared(FatView(g, d), c);
      FatSetKeepsData(g, d, c, 0);
      ReleaseRefines(g, d1, next);
      ReleaseUnfold(g, d, c);
    }
  }

  lemma {:induction false} ReleaseStatesCount(g: Geometry, d: Disk, c: nat, ch: seq<nat>)
    requires Fits(g, d) && IsChain(FatView(g, d), c, ch)
    ensures |ReleaseStates(g, d, c)| == |ch|
    decreases |ch|
  {
    if ch != [] {
      FatViewSet(g, d, c, 0);
      ClearFirst(FatView(g, d), ch);
      ReleaseStatesCount(g, FatSet(g, d, c, 0), FatGet(g, d, c), ch[1..]);
    }
  }

  /** `r` has the data of `d` and its table, but for the listed clusters being cleared. */
  ghost predicate ClearedOn(g: Geometry, d: Disk, cs: seq<nat>, r: Disk)
    requires Fits(g, d)
  {
    && |r| == |d| && Fits(g, r)
    && FatView(g, r) == Cleared(FatView(g, d), cs)
    && r[g.dataStart..] == d[g.dataStart..]
  }

  lemma ClearedFirst(g: Geometry, d: Disk, cs: seq<nat>, r: Disk)
    requires Fits(g, d) && cs != [] && cs[0] < g.clusters + 2
    requires ClearedOn(g, FatSet(g, d, cs[0], 0), cs[1..], r)
    ensures ClearedOn(g, d, cs, r)
  {
    FatViewSet(g, d, cs[0], 0);
    FatSetKeepsData(g, d, cs[0], 0);
    ClearedCons(FatView(g, d), cs);
  }

  /** On a proper chain the states clear its clusters one by one, front to back. */
  lemma {:induction false} ReleaseStatesOfChain(g: Geometry, d: Disk, c: nat, ch: seq<nat>, j: nat)
    requires Fits(g, d) && IsChain(FatView(g, d), c, ch) && j < |ch| == |ReleaseStates(g, d, c)|
    ensures ClearedOn(g, d, ch[..j + 1], ReleaseStates(g, d, c)[j])
    decreases |ch|
  {
    var d1, next := FatSet(g, d, c, 0), FatGet(g, d, c);
    FatViewSet(g, d, c, 0);
    ClearFirst(FatView(g, d), ch);
    var r := ReleaseStates(g, d, c)[j];
    if j == 0 {
      assert r == d1;
      assert FatView(g, d1) == Cleared(FatView(g, d1), []);
      assert ch[..1][1..] == [];
    } else {
      ReleaseStatesOfChain(g, d1, next, ch[1..], j - 1);
      assert ch[..j + 1][1..] == ch[1..][..j];
    }
    ClearedFirst(g, d, ch[..j + 1], r);
  }
}
