/** Directory slots byte by byte, at the offsets of section 6 of the Microsoft FAT Specification,
    August 2005: what the scans, and the fields that they decode, mean in terms of the 32 bytes. */
module SlotBytes {
  import opened Bytes
  import opened Directory

  // ----- fields -----

  /** Bytes 28 to 31 hold the size, lowest byte first. */
  lemma SizeFromBytes(s: Slot, n: nat)
    requires n < 0x1_0000_0000
    requires s[28] == n % 0x100 && s[29] == n / 0x100 % 0x100
    requires s[30] == n / 0x1_0000 % 0x100 && s[31] == n / 0x100_0000
    ensures SizeOf(s) == n
  {
    Le32OfBytes(s, 28, n);
  }

  /** Bytes 26 and 27 hold the low half of the cluster number, bytes 20 and 21 the high half. */
  lemma ClusterFromBytes(s: Slot, n: nat)
    requires n < 0x1_0000_0000
    requires s[26] == n % 0x100 && s[27] == n / 0x100 % 0x100
    requires s[20] == n / 0x1_0000 % 0x100 && s[21] == n / 0x100_0000
    ensures ClusterOf(s) == n
  {
    Le32OfBytes([s[26], s[27], s[20], s[21]], 0, n);
  }

  /** What create writes: name, attribute 0x20, and the two halves of the cluster number; every other
      byte is zero. */
  lemma NewSlotBytes(name: Name11, c: nat, k: nat)
    requires k < 32 && c < 0x1_0000_0000
    ensures k < 11 ==> NewSlot(name, c)[k] == name[k]
    ensures NewSlot(name, c)[11] == 0x20
    ensures NewSlot(name, c)[26] as int + 0x100 * NewSlot(name, c)[27] as int == c % 0x1_0000
    ensures NewSlot(name, c)[20] as int + 0x100 * NewSlot(name, c)[21] as int == c / 0x1_0000
    ensures 12 <= k < 20 || 22 <= k < 26 || 28 <= k ==> NewSlot(name, c)[k] == 0
  {
    NewSlotCluster(name, c);
  }

  /** Delete changes byte 0 to 0xE5 and no other. */
  lemma ErasedBytes(s: Slot, k: nat)
    requires k < 32
    ensures Erased(s)[k] == if k == 0 then 0xE5 else s[k]
  {
  }

  /** Bit 4 of the attribute byte marks a subdirectory. */
  lemma DirectoryAttribute(s: Slot, high: nat, low: nat)
    requires low < 16
    ensures s[11] == 32 * high + 16 + low ==> IsDirectory(s)
    ensures s[11] == 32 * high + low ==> !IsDirectory(s)
  {
  }

  // ----- scans -----

  /** An entry in use: neither the end marker, nor deleted, nor part of a long name. */
  predicate Used(s: Slot) { s[0] != 0x00 && s[0] != 0xE5 && s[11] != 0x0F }

  /** Slot i is in use, and no slot before it is the end marker. */
  ghost predicate Visible(slots: seq<Slot>, i: nat) {
    i < |slots| && Used(slots[i]) && forall j :: 0 <= j < i ==> slots[j][0] != 0x00
  }

  /** Slot i is the first visible one whose first eleven bytes are `name`. */
  ghost predicate FirstMatch(slots: seq<Slot>, name: Name11, i: nat) {
    && Visible(slots, i) && slots[i][..11] == name
    && forall j :: 0 <= j < i && Used(slots[j]) ==> slots[j][..11] != name
  }

  lemma VisibleIsLive(slots: seq<Slot>, i: nat)
    ensures Visible(slots, i) <==> Live(slots, i)
  {
  }

  lemma FindIsFirstMatch(slots: seq<Slot>, name: Name11, i: nat)
    ensures FindFrom(slots, name, 0) == Hit(i) <==> FirstMatch(slots, name, i)
  {
    FindIsFirstLive(slots, name, 0, i);
    VisibleIsLive(slots, i);
    if FirstLive(slots, name, i) {
      forall j | 0 <= j < i && Used(slots[j]) ensures slots[j][..11] != name {
        assert Live(slots, j);
      }
    }
  }

  /** The search for a slot to reuse hits the first one whose byte 0 is 0x00 or 0xE5. */
  lemma FreeIsFirstReusable(slots: seq<Slot>, i: nat)
    ensures FreeFrom(slots, 0) == Hit(i) <==>
      && i < |slots| && (slots[i][0] == 0x00 || slots[i][0] == 0xE5)
      && forall j :: 0 <= j < i ==> slots[j][0] != 0x00 && slots[j][0] != 0xE5
  {
    FreeIsFirstFree(slots, 0, i);
  }

  /** The listing consists of the visible slots at increasing positions, each of them once. */
  lemma ListingPositions(slots: seq<Slot>) returns (at: seq<nat>)
    ensures |at| == |EntriesFrom(slots, 0)| && Increasing(at)
    ensures forall i: nat :: i in at <==> Visible(slots, i)
    ensures forall k :: 0 <= k < |at| ==> at[k] < |slots| && EntriesFrom(slots, 0)[k] == slots[at[k]]
  {
    at := LiveFrom(slots, 0);
    EntriesAreLive(slots);
    forall i: nat ensures i in at <==> Visible(slots, i) {
      VisibleIsLive(slots, i);
    }
    forall k | 0 <= k < |at| ensures at[k] < |slots| {
      assert at[k] in at;
    }
    AtPositions(slots, at);
  }

  lemma {:induction false} AtPositions(slots: seq<Slot>, xs: seq<nat>)
    requires forall k :: 0 <= k < |xs| ==> xs[k] < |slots|
    ensures |At(slots, xs)| == |xs|
    ensures forall k :: 0 <= k < |xs| ==> At(slots, xs)[k] == slots[xs[k]]
  {
    if xs != [] {
      AtPositions(slots, xs[1..]);
    }
  }
}
