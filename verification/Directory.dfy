/** Directory slots of 32 bytes (sections 6 and 6.1 of the Microsoft FAT Specification, August 2005),
    and what the driver's scans over a sequence of slots find. */
module Directory {
  import opened Bytes

  type Slot = s: seq<byte> | |s| == 32 witness seq(32, _ => 0)
  type Name11 = s: seq<byte> | |s| == 11 witness seq(11, _ => 0x20)

  predicate IsEnd(s: Slot) { s[0] == 0x00 }
  predicate IsDeleted(s: Slot) { s[0] == 0xE5 }
  predicate IsFree(s: Slot) { IsEnd(s) || IsDeleted(s) }
  predicate IsLong(s: Slot) { s[11] == 0x0F }
  predicate InUse(s: Slot) { !IsFree(s) && !IsLong(s) }

  /** Attribute bit 0x10 marks a subdirectory. */
  predicate IsDirectory(s: Slot) { s[11] / 0x10 % 2 == 1 }

  function NameOf(s: Slot): Name11 { s[..11] }
  function ClusterOf(s: Slot): nat { Le16(s, 26) + 0x1_0000 * Le16(s, 20) }
  function SizeOf(s: Slot): nat { Le32(s, 28) }

  /** The slot that create writes: an empty archive entry for cluster c. */
  function NewSlot(name: Name11, c: nat): (s: Slot) {
    var bs := Bytes32(c);
    name + [0x20, 0, 0, 0, 0, 0, 0, 0, 0, bs[2], bs[3], 0, 0, 0, 0, bs[0], bs[1], 0, 0, 0, 0]
  }

  /** The slot that delete leaves behind. */
  function Erased(s: Slot): Slot { s[0 := 0xE5] }

  /** Scans see what create writes unless the first byte of its name says that the slot is free. */
  lemma NewSlotFields(name: Name11, c: nat)
    ensures NameOf(NewSlot(name, c)) == name && NewSlot(name, c)[0] == name[0]
    ensures InUse(NewSlot(name, c)) <==> name[0] != 0x00 && name[0] != 0xE5
  {
    assert NewSlot(name, c)[11] == 0x20;
  }

  lemma NewSlotEmpty(name: Name11, c: nat)
    ensures SizeOf(NewSlot(name, c)) == 0
  {
  }

  /** The cluster number survives its way through bytes 20, 21, 26 and 27. */
  lemma NewSlotCluster(name: Name11, c: nat)
    requires c < U32
    ensures ClusterOf(NewSlot(name, c)) == c
  {
    var s, bs := NewSlot(name, c), Bytes32(c);
    assert s[20] == bs[2] && s[21] == bs[3] && s[26] == bs[0] && s[27] == bs[1];
    BytesRoundTrip(c);
  }

  // ----- scans, as the driver's inner loops run them -----

  datatype Scan = Hit(at: nat) | EndMark | Miss

  /** Look for an entry called `name` from slot k on; the end marker stops the search. */
  function FindFrom(slots: seq<Slot>, name: Name11, k: nat): (r: Scan)
    ensures r.Hit? ==> k <= r.at < |slots|
    decreases |slots| - k
  {
    if k >= |slots| then Miss
    else if IsEnd(slots[k]) then EndMark
    else if InUse(slots[k]) && NameOf(slots[k]) == name then Hit(k)
    else FindFrom(slots, name, k + 1)
  }

  /** Look for a slot to reuse from slot k on. */
  function FreeFrom(slots: seq<Slot>, k: nat): (r: Scan)
    ensures r.Hit? ==> k <= r.at < |slots|
    decreases |slots| - k
  {
    if k >= |slots| then Miss
    else if IsFree(slots[k]) then Hit(k)
    else FreeFrom(slots, k + 1)
  }

  /** The entries a listing reports from slot k on. */
  function EntriesFrom(slots: seq<Slot>, k: nat): seq<Slot>
    decreases |slots| - k
  {
    if k >= |slots| || IsEnd(slots[k]) then []
    else if InUse(slots[k]) then [slots[k]] + EntriesFrom(slots, k + 1)
    else EntriesFrom(slots, k + 1)
  }

  // ----- what the scans mean -----

  /** A slot counts if it is in use and no end marker stands before it. */
  ghost predicate Live(slots: seq<Slot>, i: nat) {
    i < |slots| && InUse(slots[i]) && forall j :: 0 <= j < i ==> !IsEnd(slots[j])
  }

  /** Slot i is the first live entry called `name`. */
  ghost predicate FirstLive(slots: seq<Slot>, name: Name11, i: nat) {
    && Live(slots, i) && NameOf(slots[i]) == name
    && forall j: nat :: j < i && Live(slots, j) ==> NameOf(slots[j]) != name
  }

  /** The search finds the first live entry of that name, and finds one whenever there is one. */
  lemma {:induction false} FindIsFirstLive(slots: seq<Slot>, name: Name11, k: nat, i: nat)
    requires forall j :: 0 <= j < k && j < |slots| ==> !IsEnd(slots[j])
    requires forall j: nat :: j < k && Live(slots, j) ==> NameOf(slots[j]) != name
    ensures FindFrom(slots, name, k) == Hit(i) <==> FirstLive(slots, name, i)
    decreases |slots| - k
  {
    if k >= |slots| || IsEnd(slots[k]) {
      assert FirstLive(slots, name, i) ==> i < k;
    } else if InUse(slots[k]) && NameOf(slots[k]) == name {
      assert Live(slots, k);
    } else {
      FindIsFirstLive(slots, name, k + 1, i);
    }
  }

  /** The search for a slot to reuse finds the first free one. */
  lemma {:induction false} FreeIsFirstFree(slots: seq<Slot>, k: nat, i: nat)
    ensures FreeFrom(slots, k) == Hit(i) <==>
      k <= i < |slots| && IsFree(slots[i]) && forall j :: k <= j < i ==> !IsFree(slots[j])
    decreases |slots| - k
  {
    if k < |slots| && !IsFree(slots[k]) {
      FreeIsFirstFree(slots, k + 1, i);
    }
  }

  /** Two directories that agree on where the first live `name` is give the same search result,
      where stopping at the end marker and running off the end both mean "not found". */
  lemma SameHit(a: seq<Slot>, b: seq<Slot>, name: Name11)
    requires forall i: nat :: FirstLive(a, name, i) <==> FirstLive(b, name, i)
    ensures FindFrom(a, name, 0).Hit? <==> FindFrom(b, name, 0).Hit?
    ensures FindFrom(a, name, 0).Hit? ==> FindFrom(a, name, 0) == FindFrom(b, name, 0)
  {
    var ra, rb := FindFrom(a, name, 0), FindFrom(b, name, 0);
    if ra.Hit? {
      FindIsFirstLive(a, name, 0, ra.at);
      FindIsFirstLive(b, name, 0, ra.at);
    }
    if rb.Hit? {
      FindIsFirstLive(a, name, 0, rb.at);
      FindIsFirstLive(b, name, 0, rb.at);
    }
  }

  /** The positions of the live slots, in order. */
  function LiveFrom(slots: seq<Slot>, k: nat): seq<nat>
    decreases |slots| - k
  {
    if k >= |slots| || IsEnd(slots[k]) then []
    else if InUse(slots[k]) then [k] + LiveFrom(slots, k + 1)
    else LiveFrom(slots, k + 1)
  }

  ghost predicate Increasing(xs: seq<nat>) {
    forall m, n :: 0 <= m < n < |xs| ==> xs[m] < xs[n]
  }

  /** The slots at the given positions; a position outside is skipped. */
  function At(slots: seq<Slot>, xs: seq<nat>): seq<Slot> {
    if xs == [] then []
    else if xs[0] < |slots| then [slots[xs[0]]] + At(slots, xs[1..])
    else At(slots, xs[1..])
  }

  lemma {:induction false} LiveFromExact(slots: seq<Slot>, k: nat, i: nat)
    requires forall j :: 0 <= j < k && j < |slots| ==> !IsEnd(slots[j])
    ensures i in LiveFrom(slots, k) <==> k <= i && Live(slots, i)
    decreases |slots| - k
  {
    if k < |slots| && !IsEnd(slots[k]) {
      LiveFromExact(slots, k + 1, i);
    }
  }

  lemma {:induction false} LiveFromIncreasing(slots: seq<Slot>, k: nat)
    ensures Increasing(LiveFrom(slots, k))
    ensures forall i :: i in LiveFrom(slots, k) ==> k <= i
    decreases |slots| - k
  {
    if k < |slots| && !IsEnd(slots[k]) {
      LiveFromIncreasing(slots, k + 1);
      var rest, xs := LiveFrom(slots, k + 1), LiveFrom(slots, k);
      if InUse(slots[k]) {
        assert xs == [k] + rest;
        forall m, n | 0 <= m < n < |xs| ensures xs[m] < xs[n] {
          assert xs[n] == rest[n - 1] && rest[n - 1] in rest;
          assert m > 0 ==> xs[m] == rest[m - 1];
        }
      }
    }
  }

  lemma {:induction false} EntriesAtLive(slots: seq<Slot>, k: nat)
    ensures EntriesFrom(slots, k) == At(slots, LiveFrom(slots, k))
    decreases |slots| - k
  {
    if k < |slots| && !IsEnd(slots[k]) {
      EntriesAtLive(slots, k + 1);
      if InUse(slots[k]) {
        assert LiveFrom(slots, k)[1..] == LiveFrom(slots, k + 1);
      }
    }
  }

  /** The listing is the live slots, each once, in directory order. */
  lemma EntriesAreLive(slots: seq<Slot>)
    ensures forall i: nat :: i in LiveFrom(slots, 0) <==> Live(slots, i)
    ensures Increasing(LiveFrom(slots, 0))
    ensures EntriesFrom(slots, 0) == At(slots, LiveFrom(slots, 0))
  {
    forall i: nat ensures i in LiveFrom(slots, 0) <==> Live(slots, i) {
      LiveFromExact(slots, 0, i);
    }
    LiveFromIncreasing(slots, 0);
    EntriesAtLive(slots, 0);
  }

  // ----- the end marker -----

  /** Once a slot is the end marker, so are all behind it. */
  ghost predicate EndClean(slots: seq<Slot>) {
    forall i, j :: 0 <= i < j < |slots| && IsEnd(slots[i]) ==> IsEnd(slots[j])
  }

  /** Writing an entry into the first free slot keeps the end marker honest: no stale slot becomes
      visible, even when the slot written was the end marker itself. */
  lemma InsertKeepsLive(slots: seq<Slot>, i: nat, e: Slot)
    requires EndClean(slots) && FreeFrom(slots, 0) == Hit(i) && !IsEnd(e)
    ensures EndClean(slots[i := e])
    ensures forall j: nat :: Live(slots[i := e], j) <==> if j == i then InUse(e) else Live(slots, j)
  {
    FreeIsFirstFree(slots, 0, i);
    var slots' := slots[i := e];
    forall j: nat ensures Live(slots', j) <==> if j == i then InUse(e) else Live(slots, j) {
      if j < i {
        assert forall m :: 0 <= m < j ==> slots'[m] == slots[m];
      } else if i < j < |slots| {
        if IsEnd(slots[i]) {
          assert IsEnd(slots[j]);
        } else {
          assert forall m :: 0 <= m < j ==> IsEnd(slots'[m]) == IsEnd(slots[m]);
        }
      }
    }
  }

  lemma EraseKeepsLive(slots: seq<Slot>, i: nat)
    requires EndClean(slots) && Live(slots, i)
    ensures EndClean(slots[i := Erased(slots[i])])
    ensures forall j: nat :: Live(slots[i := Erased(slots[i])], j) <==> j != i && Live(slots, j)
  {
    var slots' := slots[i := Erased(slots[i])];
    forall j: nat ensures Live(slots', j) <==> j != i && Live(slots, j) {
      assert forall m :: 0 <= m < |slots| ==> IsEnd(slots'[m]) == IsEnd(slots[m]);
    }
  }

  /** A change of one slot does not affect searches for names that the slot does not carry. */
  lemma OtherNamesUnaffected(a: seq<Slot>, b: seq<Slot>, i: nat, name: Name11)
    requires |a| == |b| && forall j :: 0 <= j < |a| && j != i ==> a[j] == b[j]
    requires forall j: nat :: j != i ==> (Live(a, j) <==> Live(b, j))
    requires Live(a, i) ==> NameOf(a[i]) != name
    requires Live(b, i) ==> NameOf(b[i]) != name
    ensures FindFrom(a, name, 0).Hit? <==> FindFrom(b, name, 0).Hit?
    ensures FindFrom(a, name, 0).Hit? ==> FindFrom(a, name, 0) == FindFrom(b, name, 0)
  {
    forall k: nat ensures FirstLive(a, name, k) <==> FirstLive(b, name, k) {
      if k < |a| && k != i {
        assert forall j: nat :: j < k ==> (Live(a, j) && NameOf(a[j]) == name <==> Live(b, j) && NameOf(b[j]) == name);
      }
    }
    SameHit(a, b, name);
  }

  // ----- a window of a directory, as read cluster by cluster -----

  ghost predicate Window(all: seq<Slot>, base: nat, loc: seq<Slot>) {
    base + |loc| <= |all| && all[base..base + |loc|] == loc
  }

  lemma WindowAt(all: seq<Slot>, base: nat, loc: seq<Slot>, k: nat)
    requires Window(all, base, loc) && k < |loc|
    ensures base + k < |all| && all[base + k] == loc[k]
  {
    assert all[base..base + |loc|][k] == all[base + k];
  }

  // In what follows j and next are the positions of loc[k] and of the end of loc in the directory.

  lemma {:induction false} FindInWindow(all: seq<Slot>, base: nat, loc: seq<Slot>, name: Name11,
                                        k: nat, j: nat, next: nat)
    requires Window(all, base, loc) && k <= |loc| && j == base + k && next == base + |loc|
    ensures FindFrom(all, name, j) == match FindFrom(loc, name, k)
              case Hit(i) => Hit(base + i)
              case EndMark => EndMark
              case Miss => FindFrom(all, name, next)
    decreases |loc| - k
  {
    if k < |loc| {
      WindowAt(all, base, loc, k);
      FindInWindow(all, base, loc, name, k + 1, j + 1, next);
    }
  }

  lemma {:induction false} FreeInWindow(all: seq<Slot>, base: nat, loc: seq<Slot>, k: nat, j: nat, next: nat)
    requires Window(all, base, loc) && k <= |loc| && j == base + k && next == base + |loc|
    ensures FreeFrom(all, j) == match FreeFrom(loc, k)
              case Hit(i) => Hit(base + i)
              case _ => FreeFrom(all, next)
    decreases |loc| - k
  {
    if k < |loc| {
      WindowAt(all, base, loc, k);
      FreeInWindow(all, base, loc, k + 1, j + 1, next);
    }
  }

  /** The end marker occurs from slot k on. */
  predicate HasEnd(slots: seq<Slot>, k: nat)
    ensures HasEnd(slots, k) <==> exists i :: k <= i < |slots| && IsEnd(slots[i])
    decreases |slots| - k
  {
    k < |slots| && (IsEnd(slots[k]) || HasEnd(slots, k + 1))
  }

  lemma {:induction false} EndInWindow(all: seq<Slot>, base: nat, loc: seq<Slot>, k: nat, j: nat, next: nat)
    requires Window(all, base, loc) && k <= |loc| && j == base + k && next == base + |loc|
    ensures HasEnd(all, j) <==> HasEnd(loc, k) || HasEnd(all, next)
    decreases |loc| - k
  {
    if k < |loc| {
      WindowAt(all, base, loc, k);
      EndInWindow(all, base, loc, k + 1, j + 1, next);
    }
  }

  lemma ConsConcat(s: Slot, rest: seq<Slot>, after: seq<Slot>)
    ensures [s] + (rest + after) == ([s] + rest) + after
  {
  }

  lemma {:induction false} EntriesInWindow(all: seq<Slot>, base: nat, loc: seq<Slot>, k: nat, j: nat, next: nat)
    requires Window(all, base, loc) && k <= |loc| && j == base + k && next == base + |loc|
    ensures EntriesFrom(all, j) ==
      if HasEnd(loc, k) then EntriesFrom(loc, k) else EntriesFrom(loc, k) + EntriesFrom(all, next)
    decreases |loc| - k
  {
    if k < |loc| {
      WindowAt(all, base, loc, k);
      EntriesInWindow(all, base, loc, k + 1, j + 1, next);
      ConsConcat(loc[k], EntriesFrom(loc, k + 1), EntriesFrom(all, next));
    }
  }

  // ----- the listing after one slot changed -----

  lemma {:induction false} EntriesSuffix(a: seq<Slot>, b: seq<Slot>, k: nat)
    requires |a| == |b| && forall j :: k <= j < |a| ==> a[j] == b[j]
    ensures EntriesFrom(a, k) == EntriesFrom(b, k)
    decreases |a| - k
  {
    if k < |a| {
      EntriesSuffix(a, b, k + 1);
    }
  }

  /** With no end marker before slot i, the listing is that of the slots before it, its own, and
      that of the slots behind it. */
  lemma EntriesSplit(slots: seq<Slot>, i: nat)
    requires i < |slots| && forall j :: 0 <= j < i ==> !IsEnd(slots[j])
    ensures EntriesFrom(slots, 0) == EntriesFrom(slots[..i], 0) + EntriesFrom(slots, i)
  {
    assert Window(slots, 0, slots[..i]);
    EntriesInWindow(slots, 0, slots[..i], 0, 0, i);
  }

  lemma ListingOfLive(slots: seq<Slot>, i: nat)
    requires Live(slots, i)
    ensures EntriesFrom(slots, 0) == EntriesFrom(slots[..i], 0) + [slots[i]] + EntriesFrom(slots, i + 1)
  {
    EntriesSplit(slots, i);
    var before := EntriesFrom(slots[..i], 0);
    assert before + ([slots[i]] + EntriesFrom(slots, i + 1)) == before + [slots[i]] + EntriesFrom(slots, i + 1);
  }

  /** Delete takes exactly the one entry out of the listing. */
  lemma ListingAfterErase(slots: seq<Slot>, i: nat)
    requires Live(slots, i)
    ensures EntriesFrom(slots, 0) == EntriesFrom(slots[..i], 0) + [slots[i]] + EntriesFrom(slots, i + 1)
    ensures EntriesFrom(slots[i := Erased(slots[i])], 0) == EntriesFrom(slots[..i], 0) + EntriesFrom(slots, i + 1)
  {
    ListingOfLive(slots, i);
    var slots' := slots[i := Erased(slots[i])];
    EntriesSplit(slots', i);
    assert slots'[..i] == slots[..i];
    EntriesSuffix(slots', slots, i + 1);
  }

  /** Create puts exactly the new entry into the listing, at the slot it took. */
  lemma ListingAfterInsert(slots: seq<Slot>, i: nat, e: Slot)
    requires EndClean(slots) && FreeFrom(slots, 0) == Hit(i) && !IsEnd(e)
    ensures EntriesFrom(slots, 0) == EntriesFrom(slots[..i], 0) + EntriesFrom(slots, i + 1)
    ensures EntriesFrom(slots[i := e], 0) ==
      EntriesFrom(slots[..i], 0) + (if InUse(e) then [e] else []) + EntriesFrom(slots, i + 1)
  {
    FreeIsFirstFree(slots, 0, i);
    var slots' := slots[i := e];
    EntriesSplit(slots, i);
    EntriesSplit(slots', i);
    assert slots'[..i] == slots[..i];
    EntriesSuffix(slots', slots, i + 1);
    if IsEnd(slots[i]) && i + 1 < |slots| {
      assert IsEnd(slots[i + 1]);
    }
  }
}
