/** When the driver's walks along the root directory end.  Each stops at its own kind of slot; a walk
    that no slot stops needs the chain to end, and on a cyclic chain goes on for ever. */
module DirectoryWalks {
  import opened Bytes
  import opened FatTable
  import opened Chains
  import opened Directory
  import opened DiskImage
  import opened DiskOps

  /** What a walk looks for: an entry (lookup, delete), a slot to reuse (create), or every entry. */
  datatype Goal = Entry(name: Name11) | FreeSlot | Listing

  /** The slot ends a walk with that goal. */
  predicate StopsAt(goal: Goal, s: Slot) {
    match goal
    case Entry(name) => IsEnd(s) || (InUse(s) && NameOf(s) == name)
    case FreeSlot => IsFree(s)
    case Listing => IsEnd(s)
  }

  ghost predicate AnyStop(goal: Goal, slots: seq<Slot>) {
    exists s :: s in slots && StopsAt(goal, s)
  }

  /** The clusters in which a walk with that goal stops. */
  ghost function StopSet(g: Geometry, d: Disk, goal: Goal): set<nat>
    requires Fits(g, d)
  {
    set x: nat | 2 <= x < g.clusters + 2 && AnyStop(goal, ClusterSlots(g, d, x))
  }

  /** `rc` lists clusters of the volume as a walk from the root cluster on visits them. */
  ghost predicate Walk(g: Geometry, d: Disk, rc: seq<nat>) {
    && Fits(g, d) && AllInVolume(g, rc)
    && (if rc == [] then !IsLink(g.rootCluster) else rc[0] == g.rootCluster)
    && (forall k :: 0 <= k < |rc| - 1 ==> FatView(g, d)[rc[k]] == rc[k + 1])
  }

  /** No cluster follows the last one. */
  ghost predicate Terminated(g: Geometry, d: Disk, rc: seq<nat>)
    requires Fits(g, d) && AllInVolume(g, rc)
  {
    rc == [] || !IsLink(FatView(g, d)[rc[|rc| - 1]])
  }

  /** A walk with that goal stops within `rc`, or at its end. */
  ghost predicate Completes(g: Geometry, d: Disk, rc: seq<nat>, goal: Goal) {
    Walk(g, d, rc) && (Terminated(g, d, rc) || AnyStop(goal, RootSlots(g, d, rc)))
  }

  /** On a mounted disk all of them do. */
  lemma MountedCompletes(g: Geometry, d: Disk, rc: seq<nat>, goal: Goal)
    ensures Mounted(g, d, rc) <==> Walk(g, d, rc) && Terminated(g, d, rc)
    ensures Mounted(g, d, rc) ==> Completes(g, d, rc, goal)
  {
  }

  // ----- scans that find nothing to stop at -----

  lemma {:induction false} FindMissIff(slots: seq<Slot>, name: Name11, k: nat)
    requires k <= |slots|
    ensures FindFrom(slots, name, k).Miss? <==> !AnyStop(Entry(name), slots[k..])
    decreases |slots| - k
  {
    if k < |slots| {
      assert slots[k..] == [slots[k]] + slots[k + 1..];
      FindMissIff(slots, name, k + 1);
      assert slots[k] in slots[k..];
    }
  }

  lemma {:induction false} FreeMissIff(slots: seq<Slot>, k: nat)
    requires k <= |slots|
    ensures FreeFrom(slots, k).Miss? <==> !AnyStop(FreeSlot, slots[k..])
    decreases |slots| - k
  {
    if k < |slots| {
      assert slots[k..] == [slots[k]] + slots[k + 1..];
      FreeMissIff(slots, k + 1);
      assert slots[k] in slots[k..];
    }
  }

  lemma HasEndIff(slots: seq<Slot>)
    ensures HasEnd(slots, 0) <==> AnyStop(Listing, slots)
  {
    if HasEnd(slots, 0) {
      var i :| 0 <= i < |slots| && IsEnd(slots[i]);
      assert slots[i] in slots && StopsAt(Listing, slots[i]);
    }
  }

  // ----- a walk ends exactly if it halts inside the table -----

  lemma {:induction false} AnyStopInRoot(g: Geometry, d: Disk, rc: seq<nat>, goal: Goal)
    requires Fits(g, d) && AllInVolume(g, rc)
    ensures AnyStop(goal, RootSlots(g, d, rc)) <==> exists k :: 0 <= k < |rc| && rc[k] in StopSet(g, d, goal)
  {
    if rc != [] {
      AnyStopInRoot(g, d, rc[1..], goal);
      if AnyStop(goal, ClusterSlots(g, d, rc[0])) {
        var s :| s in ClusterSlots(g, d, rc[0]) && StopsAt(goal, s);
        assert s in RootSlots(g, d, rc) && rc[0] in StopSet(g, d, goal);
      }
      if AnyStop(goal, RootSlots(g, d, rc[1..])) {
        var s :| s in RootSlots(g, d, rc[1..]) && StopsAt(goal, s);
        var k :| 0 <= k < |rc[1..]| && rc[1..][k] in StopSet(g, d, goal);
        assert s in RootSlots(g, d, rc) && rc[k + 1] in StopSet(g, d, goal);
      }
    }
  }

  /** The k-th step of the walk halts, and not by a link that leads out of the table. */
  ghost predicate HaltsInside(g: Geometry, d: Disk, goal: Goal, k: nat)
    requires Fits(g, d)
  {
    var fat := FatView(g, d);
    HaltsAt(fat, StopSet(g, d, goal), g.rootCluster, k) && InsideAt(fat, g.rootCluster, k)
  }

  lemma {:induction false} IterOfWalk(g: Geometry, d: Disk, rc: seq<nat>, k: nat)
    requires Walk(g, d, rc) && k < |rc|
    ensures Iter(FatView(g, d), g.rootCluster, k) == rc[k]
    decreases k
  {
    if k > 0 {
      IterOfWalk(g, d, rc, k - 1);
      IterNext(FatView(g, d), g.rootCluster, k - 1);
    }
  }

  lemma CompletesHalts(g: Geometry, d: Disk, rc: seq<nat>, goal: Goal)
    requires Completes(g, d, rc, goal)
    ensures exists k: nat :: HaltsInside(g, d, goal, k)
  {
    if AnyStop(goal, RootSlots(g, d, rc)) {
      AnyStopInRoot(g, d, rc, goal);
      var k :| 0 <= k < |rc| && rc[k] in StopSet(g, d, goal);
      IterOfWalk(g, d, rc, k);
      assert HaltsInside(g, d, goal, k);
    } else if rc == [] {
      assert HaltsInside(g, d, goal, 0);
    } else {
      IterOfWalk(g, d, rc, |rc| - 1);
      IterNext(FatView(g, d), g.rootCluster, |rc| - 1);
      assert HaltsInside(g, d, goal, |rc|);
    }
  }

  /** The first k clusters that the walk visits. */
  lemma WalkOf(g: Geometry, d: Disk, k: nat) returns (rc: seq<nat>)
    requires Fits(g, d)
    requires forall m: nat :: m < k ==> InFat(FatView(g, d), Iter(FatView(g, d), g.rootCluster, m))
    ensures |rc| == k && forall m :: 0 <= m < k ==> rc[m] == Iter(FatView(g, d), g.rootCluster, m)
    ensures k > 0 || !IsLink(g.rootCluster) ==> Walk(g, d, rc)
  {
    var fat, root := FatView(g, d), g.rootCluster;
    rc := seq(k, m requires 0 <= m < k => Iter(fat, root, m));
    forall m | 0 <= m < k - 1 ensures fat[rc[m]] == rc[m + 1] {
      IterNext(fat, root, m);
    }
  }

  lemma HaltsCompletes(g: Geometry, d: Disk, goal: Goal, k: nat) returns (rc: seq<nat>)
    requires Fits(g, d) && HaltsInside(g, d, goal, k)
    requires forall m: nat :: m < k ==> !HaltsAt(FatView(g, d), StopSet(g, d, goal), g.rootCluster, m)
    ensures Completes(g, d, rc, goal)
  {
    var fat, c := FatView(g, d), Iter(FatView(g, d), g.rootCluster, k);
    forall m: nat | m < k ensures InFat(fat, Iter(fat, g.rootCluster, m)) {
      assert !HaltsAt(fat, StopSet(g, d, goal), g.rootCluster, m);
    }
    if IsLink(c) {
      rc := WalkOf(g, d, k + 1);
      AnyStopInRoot(g, d, rc, goal);
      assert rc[k] in StopSet(g, d, goal);
    } else {
      rc := WalkOf(g, d, k);
      if k > 0 {
        IterNext(fat, g.rootCluster, k - 1);
      }
    }
  }

  /** So a walk completes on some list of clusters exactly if it halts inside the table. */
  lemma CompletesIffHalts(g: Geometry, d: Disk, goal: Goal)
    requires Fits(g, d)
    ensures (exists rc :: Completes(g, d, rc, goal)) <==> exists k: nat :: HaltsInside(g, d, goal, k)
  {
    if rc :| Completes(g, d, rc, goal) {
      CompletesHalts(g, d, rc, goal);
    }
    if k: nat :| HaltsInside(g, d, goal, k) {
      var m := FirstHalt(FatView(g, d), StopSet(g, d, goal), g.rootCluster, k);
      assert HaltsInside(g, d, goal, m) by {
        HaltStays(FatView(g, d), g.rootCluster, m, k);
      }
      var rc := HaltsCompletes(g, d, goal, m);
    }
  }

  lemma {:induction false} FirstHalt(fat: Fat, stop: set<nat>, c: nat, k: nat) returns (m: nat)
    requires HaltsAt(fat, stop, c, k)
    ensures m <= k && HaltsAt(fat, stop, c, m)
    ensures forall l: nat :: l < m ==> !HaltsAt(fat, stop, c, l)
    decreases k
  {
    if l: nat :| l < k && HaltsAt(fat, stop, c, l) {
      m := FirstHalt(fat, stop, c, l);
    } else {
      m := k;
    }
  }

  /** A walk that leaves the table stays outside. */
  lemma {:induction false} HaltStays(fat: Fat, c: nat, m: nat, k: nat)
    requires m <= k && InsideAt(fat, c, k)
    ensures InsideAt(fat, c, m)
    decreases k
  {
    if m < k {
      IterNext(fat, c, k - 1);
      if InFat(fat, Iter(fat, c, k - 1)) {
        assert InsideAt(fat, c, k - 1);
      }
      HaltStays(fat, c, m, k - 1);
    }
  }

  /** On a table without links that lead out of it: a walk ends exactly if no cluster comes back before
      a match, a free slot or the end marker stops it. */
  lemma WalkCompletesIff(g: Geometry, d: Disk, goal: Goal)
    requires Fits(g, d) && StaysInside(FatView(g, d), g.rootCluster)
    ensures (exists rc :: Completes(g, d, rc, goal))
       <==> !exists j: nat :: RepeatsAt(FatView(g, d), StopSet(g, d, goal), g.rootCluster, j)
  {
    var fat, stop, root := FatView(g, d), StopSet(g, d, goal), g.rootCluster;
    CompletesIffHalts(g, d, goal);
    WalkEndsIff(fat, stop, root);
    if k: nat :| HaltsAt(fat, stop, root, k) {
      assert HaltsInside(g, d, goal, k);
    }
  }
}
