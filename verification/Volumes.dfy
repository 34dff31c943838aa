/** A FAT32 volume as the driver sees it: the allocation table and the root directory as one list
    of slots.  The well-formedness of a volume, and what create and delete do to it. */
module Volumes {
  import opened Chains
  import opened Directory

  datatype Volume = Volume(fat: Fat, slots: seq<Slot>)

  // ----- ownership -----

  /** A chain for every slot, and behind them that of the root directory. */
  type Owners = seq<seq<nat>>

  ghost predicate Owns(cs: Owners, x: nat) {
    exists i :: 0 <= i < |cs| && x in cs[i]
  }

  ghost predicate Disjoint(cs: Owners) {
    forall i, j, x :: 0 <= i < |cs| && 0 <= j < |cs| && x in cs[i] && x in cs[j] ==> i == j
  }

  /** Every live slot has a proper chain, every other slot none. */
  ghost predicate SlotChains(v: Volume, cs: Owners) {
    |cs| == |v.slots| + 1 &&
    forall i {:trigger SlotChain(v.fat, v.slots[i], cs[i])} ::
      0 <= i < |v.slots| ==> SlotChain(v.fat, v.slots[i], cs[i])
  }

  ghost predicate SlotChain(fat: Fat, s: Slot, ch: seq<nat>) {
    if InUse(s) then IsChain(fat, ClusterOf(s), ch) else ch == []
  }

  ghost predicate EndsInEoc(fat: Fat, ch: seq<nat>) {
    ch != [] && ch[|ch| - 1] < |fat| ==> fat[ch[|ch| - 1]] >= 0x0FFF_FFF8
  }

  /** Exactly the clusters that a chain or `foreign` holds are allocated. */
  ghost predicate Allocation(fat: Fat, cs: Owners, foreign: set<nat>) {
    && (forall x {:trigger Owns(cs, x)} {:trigger x in foreign} ::
          2 <= x < |fat| ==> (fat[x] != 0 <==> Owns(cs, x) || x in foreign))
    && (forall x :: x in foreign ==> 2 <= x < |fat| && !Owns(cs, x))
  }

  /** A well-formed volume: the root directory and every live entry have a chain that is in range,
      finite and terminated by an end-of-chain mark; no cluster belongs to two of them; nothing
      else is allocated but `foreign` (contents of subdirectories, clusters marked bad); and no
      slot hides behind the end marker. */
  ghost predicate Inv(v: Volume, root: nat, cs: Owners, foreign: set<nat>) {
    && |v.fat| <= 0x0FFF_FFF0
    && EndClean(v.slots)
    && SlotChains(v, cs)
    && IsChain(v.fat, root, cs[|v.slots|])
    && (forall i {:trigger EndsInEoc(v.fat, cs[i])} :: 0 <= i < |cs| ==> EndsInEoc(v.fat, cs[i]))
    && Disjoint(cs)
    && Allocation(v.fat, cs, foreign)
  }

  ghost predicate WellFormed(v: Volume, root: nat, foreign: set<nat>) {
    exists cs: Owners :: Inv(v, root, cs, foreign)
  }

  // ----- operations -----

  /** The least free cluster from c on, or |fat|. */
  function FirstFree(fat: Fat, c: nat): (r: nat)
    ensures c <= r
    ensures r < |fat| ==> fat[r] == 0
    ensures forall x :: c <= x < r && x < |fat| ==> fat[x] != 0
    decreases |fat| - c
  {
    if c >= |fat| || fat[c] == 0 then c else FirstFree(fat, c + 1)
  }

  /** Create has both a slot and a cluster to use. */
  predicate HasRoom(v: Volume) {
    FreeFrom(v.slots, 0).Hit? && FirstFree(v.fat, 2) < |v.fat|
  }

  /** A create that gets as far as looking for a cluster finds one inside the table. */
  predicate RoomIfSlot(v: Volume) { FreeFrom(v.slots, 0).Hit? ==> HasRoom(v) }

  function Created(v: Volume, name: Name11): Volume
    requires HasRoom(v)
  {
    var i, c := FreeFrom(v.slots, 0).at, FirstFree(v.fat, 2);
    Volume(v.fat[c := 0x0FFF_FFFF], v.slots[i := NewSlot(name, c)])
  }

  function Removed(v: Volume, i: nat): Volume
    requires i < |v.slots|
  {
    Volume(Release(v.fat, ClusterOf(v.slots[i])), v.slots[i := Erased(v.slots[i])])
  }

  /** Slot i erased and the first j clusters of its chain `ch` released: where a delete stands
      after 1 + j sector writes. */
  function PartlyRemoved(v: Volume, i: nat, ch: seq<nat>, j: nat): Volume
    requires i < |v.slots| && j <= |ch|
  {
    Volume(Cleared(v.fat, ch[..j]), v.slots[i := Erased(v.slots[i])])
  }

  // ----- ownership bookkeeping -----

  lemma OwnsAfterGrant(cs: Owners, i: nat, ch: seq<nat>, x: nat)
    requires i < |cs| && cs[i] == []
    ensures Owns(cs[i := ch], x) <==> Owns(cs, x) || x in ch
  {
    var cs' := cs[i := ch];
    if Owns(cs, x) {
      var j :| 0 <= j < |cs| && x in cs[j];
      assert x in cs'[j];
    }
    if x in ch {
      assert x in cs'[i];
    }
    if Owns(cs', x) {
      var j :| 0 <= j < |cs'| && x in cs'[j];
      assert j != i ==> x in cs[j];
    }
  }

  lemma OwnsAfterRevoke(cs: Owners, i: nat, x: nat)
    requires i < |cs| && Disjoint(cs)
    ensures Owns(cs[i := []], x) <==> Owns(cs, x) && x !in cs[i]
  {
    var cs' := cs[i := []];
    if Owns(cs, x) && x !in cs[i] {
      var j :| 0 <= j < |cs| && x in cs[j];
      assert x in cs'[j];
    }
    if Owns(cs', x) {
      var j :| 0 <= j < |cs'| && x in cs'[j];
      assert x in cs[j];
    }
  }

  /** Chains that do not meet the changed entries carry over to the new table. */
  lemma SlotChainFrame(fat: Fat, fat': Fat, s: Slot, ch: seq<nat>)
    requires SlotChain(fat, s, ch) && |fat'| == |fat|
    requires forall k :: 0 <= k < |ch| ==> ch[k] < |fat| && fat'[ch[k]] == fat[ch[k]]
    ensures SlotChain(fat', s, ch)
  {
    if InUse(s) {
      LinkedFrame(fat, fat', ch);
    }
  }

  lemma ChainInRange(v: Volume, root: nat, cs: Owners, foreign: set<nat>, i: nat, k: nat)
    requires Inv(v, root, cs, foreign) && i < |cs| && k < |cs[i]|
    ensures 2 <= cs[i][k] < |v.fat| && v.fat[cs[i][k]] != 0 && Owns(cs, cs[i][k])
  {
    if i < |v.slots| {
      assert SlotChain(v.fat, v.slots[i], cs[i]);
    }
    assert cs[i][k] in cs[i];
    assert Owns(cs, cs[i][k]);
  }

  // ----- create -----

  lemma FreeClusterUnowned(v: Volume, root: nat, cs: Owners, foreign: set<nat>)
    requires Inv(v, root, cs, foreign) && HasRoom(v)
    ensures var c := FirstFree(v.fat, 2); !Owns(cs, c) && c !in foreign
    ensures cs[FreeFrom(v.slots, 0).at] == []
  {
    var i := FreeFrom(v.slots, 0).at;
    FreeIsFirstFree(v.slots, 0, i);
    assert SlotChain(v.fat, v.slots[i], cs[i]);
  }

  /** All chains survive create's change of the table. */
  lemma ChainsAfterCreate(v: Volume, root: nat, cs: Owners, foreign: set<nat>, k: nat)
    requires Inv(v, root, cs, foreign) && HasRoom(v) && k < |cs|
    ensures var fat' := v.fat[FirstFree(v.fat, 2) := 0x0FFF_FFFF];
      && EndsInEoc(fat', cs[k])
      && (k < |v.slots| ==> SlotChain(fat', v.slots[k], cs[k]))
      && (k == |v.slots| ==> IsChain(fat', root, cs[k]))
  {
    var c := FirstFree(v.fat, 2);
    var fat' := v.fat[c := 0x0FFF_FFFF];
    forall m | 0 <= m < |cs[k]| ensures cs[k][m] < |v.fat| && fat'[cs[k][m]] == v.fat[cs[k][m]] {
      ChainInRange(v, root, cs, foreign, k, m);
    }
    assert EndsInEoc(v.fat, cs[k]);
    if k < |v.slots| {
      assert SlotChain(v.fat, v.slots[k], cs[k]);
      SlotChainFrame(v.fat, fat', v.slots[k], cs[k]);
    } else {
      LinkedFrame(v.fat, fat', cs[k]);
    }
  }

  lemma NewEntryChain(v: Volume, name: Name11)
    requires HasRoom(v) && |v.fat| <= 0x0FFF_FFF0 && name[0] != 0x00 && name[0] != 0xE5
    ensures var c := FirstFree(v.fat, 2);
      var fat' := v.fat[c := 0x0FFF_FFFF];
      SlotChain(fat', NewSlot(name, c), [c]) && EndsInEoc(fat', [c])
  {
    NewSlotFields(name, FirstFree(v.fat, 2));
    NewSlotCluster(name, FirstFree(v.fat, 2));
  }

  lemma GrantAllocation(v: Volume, root: nat, cs: Owners, foreign: set<nat>)
    requires Inv(v, root, cs, foreign) && HasRoom(v)
    ensures var c := FirstFree(v.fat, 2);
      var cs' := cs[FreeFrom(v.slots, 0).at := [c]];
      Disjoint(cs') && Allocation(v.fat[c := 0x0FFF_FFFF], cs', foreign)
  {
    var i, c := FreeFrom(v.slots, 0).at, FirstFree(v.fat, 2);
    FreeClusterUnowned(v, root, cs, foreign);
    GrantKeepsDisjoint(cs, i, c);
    var fat' := v.fat[c := 0x0FFF_FFFF];
    forall x | 2 <= x < |fat'|
      ensures fat'[x] != 0 <==> Owns(cs[i := [c]], x) || x in foreign
    {
      OwnsAfterGrant(cs, i, [c], x);
      assert Owns(cs, x) ==> v.fat[x] != 0;
    }
    forall x | x in foreign ensures !Owns(cs[i := [c]], x) {
      OwnsAfterGrant(cs, i, [c], x);
    }
  }

  /** Create keeps a volume well-formed, the new entry owning the one cluster it was given ... */
  lemma CreateKeepsInv(v: Volume, root: nat, cs: Owners, foreign: set<nat>, name: Name11)
    requires Inv(v, root, cs, foreign) && HasRoom(v)
    requires name[0] != 0x00 && name[0] != 0xE5
    ensures Inv(Created(v, name), root, cs[FreeFrom(v.slots, 0).at := [FirstFree(v.fat, 2)]], foreign)
  {
    var i, c := FreeFrom(v.slots, 0).at, FirstFree(v.fat, 2);
    var v', cs' := Created(v, name), cs[i := [c]];
    NewEntryChain(v, name);
    GrantAllocation(v, root, cs, foreign);
    assert EndClean(v'.slots) by {
      NewSlotFields(name, c);
      InsertKeepsLive(v.slots, i, NewSlot(name, c));
    }
    forall k | 0 <= k < |cs'|
      ensures EndsInEoc(v'.fat, cs'[k])
      ensures k < |v.slots| ==> SlotChain(v'.fat, v'.slots[k], cs'[k])
      ensures k == |v.slots| ==> IsChain(v'.fat, root, cs'[k])
    {
      if k != i {
        ChainsAfterCreate(v, root, cs, foreign, k);
      }
    }
  }

  lemma GrantKeepsDisjoint(cs: Owners, i: nat, c: nat)
    requires Disjoint(cs) && i < |cs| && cs[i] == [] && !Owns(cs, c)
    ensures Disjoint(cs[i := [c]])
  {
  }

  /** ... except that under a name whose first byte is 0xE5 the new slot counts as deleted, and
      the cluster stays allocated without an owner. */
  lemma CreateLeaks(v: Volume, root: nat, cs: Owners, foreign: set<nat>, name: Name11)
    requires Inv(v, root, cs, foreign) && HasRoom(v)
    requires name[0] == 0xE5
    ensures Inv(Created(v, name), root, cs, foreign + {FirstFree(v.fat, 2)})
  {
    var i, c := FreeFrom(v.slots, 0).at, FirstFree(v.fat, 2);
    var v' := Created(v, name);
    NewSlotFields(name, c);
    assert EndClean(v'.slots) by {
      InsertKeepsLive(v.slots, i, NewSlot(name, c));
    }
    FreeClusterUnowned(v, root, cs, foreign);
    forall k | 0 <= k < |cs|
      ensures EndsInEoc(v'.fat, cs[k])
      ensures k < |v.slots| ==> SlotChain(v'.fat, v'.slots[k], cs[k])
      ensures k == |v.slots| ==> IsChain(v'.fat, root, cs[k])
    {
      ChainsAfterCreate(v, root, cs, foreign, k);
    }
  }

  /** The chains of a well-formed volume are determined by it. */
  lemma ChainsUnique(v: Volume, root: nat, cs: Owners, cs': Owners)
    requires SlotChains(v, cs) && SlotChains(v, cs')
    requires IsChain(v.fat, root, cs[|v.slots|]) && IsChain(v.fat, root, cs'[|v.slots|])
    ensures cs == cs'
  {
    forall i | 0 <= i < |cs| ensures cs[i] == cs'[i] {
      if i == |v.slots| {
        ChainUnique(v.fat, root, cs[i], cs'[i]);
      } else {
        assert SlotChain(v.fat, v.slots[i], cs[i]) && SlotChain(v.fat, v.slots[i], cs'[i]);
        if InUse(v.slots[i]) {
          ChainUnique(v.fat, ClusterOf(v.slots[i]), cs[i], cs'[i]);
        }
      }
    }
  }

  /** And so is what is allocated without an owner. */
  lemma ForeignUnique(v: Volume, cs: Owners, f1: set<nat>, f2: set<nat>)
    requires Allocation(v.fat, cs, f1) && Allocation(v.fat, cs, f2)
    ensures f1 == f2
  {
    forall x ensures x in f1 <==> x in f2 {
      if x in f1 || x in f2 {
        assert 2 <= x < |v.fat| && v.fat[x] != 0;
      }
    }
  }

  /** So create keeps the volume free of leaks exactly for names that do not begin with 0xE5. */
  lemma CreateKeepsWellFormedIff(v: Volume, root: nat, foreign: set<nat>, name: Name11)
    requires WellFormed(v, root, foreign) && HasRoom(v) && name[0] != 0x00
    ensures WellFormed(Created(v, name), root, foreign) <==> name[0] != 0xE5
  {
    var cs: Owners :| Inv(v, root, cs, foreign);
    var c := FirstFree(v.fat, 2);
    if name[0] != 0xE5 {
      CreateKeepsInv(v, root, cs, foreign, name);
    } else if WellFormed(Created(v, name), root, foreign) {
      var v' := Created(v, name);
      var cs': Owners :| Inv(v', root, cs', foreign);
      CreateLeaks(v, root, cs, foreign, name);
      ChainsUnique(v', root, cs, cs');
      FreeClusterUnowned(v, root, cs, foreign);
      assert false;
    }
  }

  /** Create interrupted between its two writes: the slot is written, its cluster not yet marked. */
  function HalfCreated(v: Volume, name: Name11): Volume
    requires HasRoom(v)
  {
    var i := FreeFrom(v.slots, 0).at;
    v.(slots := v.slots[i := NewSlot(name, FirstFree(v.fat, 2))])
  }

  /** Such a volume is well-formed only if the new slot counts as deleted: otherwise a live entry
      points to a cluster that a later create will give away again. */
  lemma HalfCreatedWellFormedIff(v: Volume, root: nat, foreign: set<nat>, name: Name11)
    requires WellFormed(v, root, foreign) && HasRoom(v) && name[0] != 0x00
    ensures WellFormed(HalfCreated(v, name), root, foreign) <==> name[0] == 0xE5
  {
    var i, c, h := FreeFrom(v.slots, 0).at, FirstFree(v.fat, 2), HalfCreated(v, name);
    NewSlotFields(name, c);
    NewSlotCluster(name, c);
    assert c < |v.fat| <= 0x0FFF_FFF0;
    if name[0] == 0xE5 {
      var cs: Owners :| Inv(v, root, cs, foreign);
      InsertKeepsLive(v.slots, i, NewSlot(name, c));
      FreeClusterUnowned(v, root, cs, foreign);
      HalfKeepsChains(v, cs, i, NewSlot(name, c));
      assert Inv(h, root, cs, foreign);
    } else {
      forall cs: Owners ensures !Inv(h, root, cs, foreign) {
        if |cs| == |h.slots| + 1 && SlotChain(h.fat, h.slots[i], cs[i]) {
          UnmarkedChain(h.fat, c, cs[i]);
        }
      }
    }
  }

  lemma HalfKeepsChains(v: Volume, cs: Owners, i: nat, e: Slot)
    requires SlotChains(v, cs) && i < |v.slots| && cs[i] == [] && !InUse(e)
    ensures SlotChains(v.(slots := v.slots[i := e]), cs)
  {
    forall k | 0 <= k < |v.slots| ensures SlotChain(v.fat, v.slots[i := e][k], cs[k]) {
      assert SlotChain(v.fat, v.slots[k], cs[k]);
    }
  }

  lemma UnmarkedChain(fat: Fat, c: nat, ch: seq<nat>)
    requires 2 <= c < |fat| && c < 0x0FFF_FFF0 && fat[c] == 0 && IsChain(fat, c, ch)
    ensures ch == [c] && !EndsInEoc(fat, ch)
  {
    LinkedTail(fat, ch);
  }

  // ----- delete -----

  lemma ChainsAfterRemove(v: Volume, root: nat, cs: Owners, foreign: set<nat>, i: nat, j: nat, k: nat)
    requires Inv(v, root, cs, foreign) && i < |v.slots| && j <= |cs[i]| && k < |cs| && k != i
    ensures var fat' := Cleared(v.fat, cs[i][..j]);
      && EndsInEoc(fat', cs[k])
      && (k < |v.slots| ==> SlotChain(fat', v.slots[k], cs[k]))
      && (k == |v.slots| ==> IsChain(fat', root, cs[k]))
  {
    var fat' := Cleared(v.fat, cs[i][..j]);
    forall m | 0 <= m < |cs[k]| ensures cs[k][m] < |v.fat| && fat'[cs[k][m]] == v.fat[cs[k][m]] {
      ChainInRange(v, root, cs, foreign, k, m);
      assert cs[k][m] !in cs[i];
    }
    assert EndsInEoc(v.fat, cs[k]);
    if k < |v.slots| {
      assert SlotChain(v.fat, v.slots[k], cs[k]);
      SlotChainFrame(v.fat, fat', v.slots[k], cs[k]);
    } else {
      LinkedFrame(v.fat, fat', cs[k]);
    }
  }

  function Elements(xs: seq<nat>): set<nat> { set x | x in xs }

  /** Wherever a delete is interrupted, the volume is well-formed but for clusters that are still
      allocated and have no owner any more, and these are exactly the part of the removed chain
      that was not yet released.  With j == |cs[i]| nothing is left over. */
  lemma RemoveKeepsInv(v: Volume, root: nat, cs: Owners, foreign: set<nat>, i: nat, j: nat)
    requires Inv(v, root, cs, foreign) && Live(v.slots, i) && j <= |cs[i]|
    ensures Inv(PartlyRemoved(v, i, cs[i], j), root, cs[i := []], foreign + Elements(cs[i][j..]))
  {
    var v', cs', foreign' := PartlyRemoved(v, i, cs[i], j), cs[i := []], foreign + Elements(cs[i][j..]);
    EraseKeepsLive(v.slots, i);
    forall k | 0 <= k < |cs'|
      ensures EndsInEoc(v'.fat, cs'[k])
      ensures k < |v.slots| ==> SlotChain(v'.fat, v'.slots[k], cs'[k])
    {
      if k != i {
        ChainsAfterRemove(v, root, cs, foreign, i, j, k);
      }
    }
    ChainsAfterRemove(v, root, cs, foreign, i, j, |v.slots|);
    RemoveAllocation(v, root, cs, foreign, i, j);
  }

  lemma RemoveAllocation(v: Volume, root: nat, cs: Owners, foreign: set<nat>, i: nat, j: nat)
    requires Inv(v, root, cs, foreign) && i < |v.slots| && j <= |cs[i]|
    ensures Allocation(Cleared(v.fat, cs[i][..j]), cs[i := []], foreign + Elements(cs[i][j..]))
  {
    var ch, cs' := cs[i], cs[i := []];
    assert SlotChain(v.fat, v.slots[i], ch);
    forall x: nat
      ensures Owns(cs', x) <==> Owns(cs, x) && x !in ch
      ensures x in ch ==> 2 <= x < |v.fat| && Owns(cs, x)
      ensures x in ch <==> x in ch[..j] || x in ch[j..]
      ensures !(x in ch[..j] && x in ch[j..])
    {
      OwnsAfterRevoke(cs, i, x);
      InOneHalf(v.fat, ch, j, x);
      if x in ch {
        var k :| 0 <= k < |ch| && ch[k] == x;
        ChainInRange(v, root, cs, foreign, i, k);
      }
    }
  }

  lemma InOneHalf(fat: Fat, ch: seq<nat>, j: nat, x: nat)
    requires Linked(fat, ch) && j <= |ch|
    ensures x in ch <==> x in ch[..j] || x in ch[j..]
    ensures !(x in ch[..j] && x in ch[j..])
  {
    assert ch == ch[..j] + ch[j..];
    if x in ch[..j] && x in ch[j..] {
      var a :| 0 <= a < j && ch[..j][a] == x;
      var b :| 0 <= b < |ch| - j && ch[j..][b] == x;
      ChainAcyclic(fat, ch, a, j + b);
    }
  }

  /** A completed delete is the last of the partial ones. */
  lemma RemovedIsComplete(v: Volume, root: nat, cs: Owners, foreign: set<nat>, i: nat)
    requires Inv(v, root, cs, foreign) && Live(v.slots, i)
    ensures Removed(v, i) == PartlyRemoved(v, i, cs[i], |cs[i]|)
    ensures NonZero(Removed(v, i).fat) == NonZero(v.fat) - |cs[i]|
  {
    var ch := cs[i];
    assert SlotChain(v.fat, v.slots[i], ch);
    forall k | 0 <= k < |ch| ensures v.fat[ch[k]] != 0 {
      ChainInRange(v, root, cs, foreign, i, k);
    }
    ReleaseChain(v.fat, ClusterOf(v.slots[i]), ch);
    assert ch[..|ch|] == ch;
  }

  lemma RemoveKeepsWellFormed(v: Volume, root: nat, cs: Owners, foreign: set<nat>, i: nat)
    requires Inv(v, root, cs, foreign) && Live(v.slots, i)
    ensures Inv(Removed(v, i), root, cs[i := []], foreign)
  {
    RemovedIsComplete(v, root, cs, foreign, i);
    RemoveKeepsInv(v, root, cs, foreign, i, |cs[i]|);
    assert foreign + Elements(cs[i][|cs[i]|..]) == foreign;
  }

  // ----- names -----

  /** Both searches fail, or both find the same, unchanged slot. */
  ghost predicate SameResult(a: seq<Slot>, b: seq<Slot>, name: Name11) {
    var ra, rb := FindFrom(a, name, 0), FindFrom(b, name, 0);
    (ra.Hit? <==> rb.Hit?) && (ra.Hit? ==> ra == rb && rb.at < |a| && a[ra.at] == b[ra.at])
  }

  lemma OtherNameSameResult(a: seq<Slot>, i: nat, e: Slot, name: Name11)
    requires i < |a|
    requires forall j: nat :: j != i ==> (Live(a, j) <==> Live(a[i := e], j))
    requires Live(a, i) ==> NameOf(a[i]) != name
    requires Live(a[i := e], i) ==> NameOf(e) != name
    ensures SameResult(a, a[i := e], name)
  {
    OtherNamesUnaffected(a, a[i := e], i, name);
    var ra := FindFrom(a, name, 0);
    if ra.Hit? {
      FindIsFirstLive(a, name, 0, ra.at);
    }
  }

  /** Create changes the search result for no name but its own. */
  lemma CreateKeepsOtherNames(v: Volume, name: Name11, other: Name11)
    requires EndClean(v.slots) && HasRoom(v)
    requires name[0] != 0x00 && other != name
    ensures SameResult(v.slots, Created(v, name).slots, other)
  {
    var i, c := FreeFrom(v.slots, 0).at, FirstFree(v.fat, 2);
    var e := NewSlot(name, c);
    NewSlotFields(name, c);
    FreeIsFirstFree(v.slots, 0, i);
    InsertKeepsLive(v.slots, i, e);
    OtherNameSameResult(v.slots, i, e, other);
  }

  /** Delete changes the search result for no name but the one deleted. */
  lemma RemoveKeepsOtherNames(v: Volume, name: Name11, other: Name11)
    requires EndClean(v.slots) && FindFrom(v.slots, name, 0).Hit? && other != name
    ensures SameResult(v.slots, Removed(v, FindFrom(v.slots, name, 0).at).slots, other)
  {
    var i := FindFrom(v.slots, name, 0).at;
    FindIsFirstLive(v.slots, name, 0, i);
    EraseKeepsLive(v.slots, i);
    assert IsDeleted(Erased(v.slots[i]));
    OtherNameSameResult(v.slots, i, Erased(v.slots[i]), other);
  }

  // ----- create, then delete -----

  /** A created file is found, at the slot create took; when the name was fresh. */
  lemma FindCreated(v: Volume, name: Name11)
    requires EndClean(v.slots) && HasRoom(v) && |v.fat| <= 0x0FFF_FFF0
    requires name[0] != 0x00 && name[0] != 0xE5
    requires !FindFrom(v.slots, name, 0).Hit?
    ensures FindFrom(Created(v, name).slots, name, 0) == Hit(FreeFrom(v.slots, 0).at)
  {
    var i, c := FreeFrom(v.slots, 0).at, FirstFree(v.fat, 2);
    var slots' := Created(v, name).slots;
    NewSlotFields(name, c);
    InsertKeepsLive(v.slots, i, NewSlot(name, c));
    if j: nat :| j < i && Live(v.slots, j) && NameOf(v.slots[j]) == name {
      NoHitNoLive(v.slots, name, j);
    }
    FindIsFirstLive(slots', name, 0, i);
  }

  lemma {:induction false} NoHitNoLive(slots: seq<Slot>, name: Name11, j: nat)
    requires !FindFrom(slots, name, 0).Hit?
    ensures !(Live(slots, j) && NameOf(slots[j]) == name)
    decreases j
  {
    if Live(slots, j) && NameOf(slots[j]) == name {
      forall k: nat | k < j && Live(slots, k) ensures NameOf(slots[k]) != name {
        NoHitNoLive(slots, name, k);
      }
      assert FirstLive(slots, name, j);
      FindIsFirstLive(slots, name, 0, j);
    }
  }

  /** Creating a file under a fresh name and deleting it again gives back the same table and the
      same listing, and a further create takes the same slot and the same cluster. */
  lemma CreateThenRemove(v: Volume, name: Name11)
    requires EndClean(v.slots) && HasRoom(v) && |v.fat| <= 0x0FFF_FFF0
    requires name[0] != 0x00 && name[0] != 0xE5
    requires !FindFrom(v.slots, name, 0).Hit?
    ensures var v1 := Created(v, name);
      && FindFrom(v1.slots, name, 0).Hit?
      && var v2 := Removed(v1, FindFrom(v1.slots, name, 0).at);
         && v2.fat == v.fat
         && EntriesFrom(v2.slots, 0) == EntriesFrom(v.slots, 0)
         && FreeFrom(v2.slots, 0) == FreeFrom(v.slots, 0)
         && FirstFree(v2.fat, 2) == FirstFree(v.fat, 2)
  {
    FindCreated(v, name);
    ReleaseFresh(v, name);
    CreateThenRemoveSlots(v, name);
  }

  lemma ReleaseFresh(v: Volume, name: Name11)
    requires HasRoom(v) && |v.fat| <= 0x0FFF_FFF0
    ensures Removed(Created(v, name), FreeFrom(v.slots, 0).at).fat == v.fat
  {
    var i, c := FreeFrom(v.slots, 0).at, FirstFree(v.fat, 2);
    var fat1 := v.fat[c := 0x0FFF_FFFF];
    NewSlotCluster(name, c);
    assert Release(fat1[c := 0], fat1[c]) == fat1[c := 0];
    assert Release(fat1, c) == fat1[c := 0] == v.fat;
  }

  lemma CreateThenRemoveSlots(v: Volume, name: Name11)
    requires EndClean(v.slots) && HasRoom(v) && |v.fat| <= 0x0FFF_FFF0
    requires name[0] != 0x00 && name[0] != 0xE5
    ensures var i := FreeFrom(v.slots, 0).at;
      var slots2 := Removed(Created(v, name), i).slots;
      EntriesFrom(slots2, 0) == EntriesFrom(v.slots, 0) && FreeFrom(slots2, 0) == Hit(i)
  {
    var i, c := FreeFrom(v.slots, 0).at, FirstFree(v.fat, 2);
    var e := NewSlot(name, c);
    NewSlotFields(name, c);
    var slots2 := v.slots[i := Erased(e)];
    assert Removed(Created(v, name), i).slots == slots2;
    ListingAfterInsert(v.slots, i, Erased(e));
    FreeIsFirstFree(v.slots, 0, i);
    FreeIsFirstFree(slots2, 0, i);
  }
}
